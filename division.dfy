/** `_impl::divide` and the operations built on it: the dividend is
    converted to an intermediate type wide and precise enough for the
    quotient, the representations are divided with the built-in `/`, and
    the quotient is rescaled into the result type. */
module Division {
  import opened Bits
  import opened IntKinds
  import opened Shifts
  import opened FixedPoint
  import opened TypeResolution

  /** Integer digits of divide's intermediate type: enough for the quotient
      and for the dividend divided by the smallest divisor. */
  function IntermediateIntegerDigits(res: FixedKind, a: FixedKind, b: FixedKind): int
    requires res.Valid() && a.Valid() && b.Valid()
  {
    Max(IntegerDigits(res), IntegerDigits(a) + FractionalDigits(b))
  }

  /** Fractional digits of divide's intermediate type. */
  function IntermediateFractionalDigits(res: FixedKind, a: FixedKind, b: FixedKind): int
    requires res.Valid() && a.Valid() && b.Valid()
  {
    Max(FractionalDigits(res), FractionalDigits(a) + IntegerDigits(b))
  }

  /** The intermediate type is signed when the quotient or the dividend is. */
  predicate IntermediateSigned(res: FixedKind, a: FixedKind)
  {
    res.reprType.signed || a.reprType.signed
  }

  /** When `divide<res>(a, b)` is defined: the intermediate `make_fixed`
      exists (its digit counts are `unsigned` template arguments and need a
      built-in type of at most 128 bits) and the divisor's representation is
      not zero. */
  predicate CanDivide(res: FixedKind, a: Fixed, b: Fixed)
  {
    res.Valid() && a.Valid() && b.Valid() && b.repr != 0
    && IntermediateIntegerDigits(res, a.kind, b.kind) >= 0
    && IntermediateFractionalDigits(res, a.kind, b.kind) >= 0
    && IntermediateIntegerDigits(res, a.kind, b.kind) + IntermediateFractionalDigits(res, a.kind, b.kind)
       + SignBit(IntermediateSigned(res, a.kind)) <= 128
  }

  /** `intermediate_type`: `make_fixed` of the two digit counts. */
  function Intermediate(res: FixedKind, a: Fixed, b: Fixed): (r: FixedKind)
    requires CanDivide(res, a, b)
    ensures r.Valid() && r.reprType.signed == IntermediateSigned(res, a.kind)
    ensures IntegerDigits(r) == IntermediateIntegerDigits(res, a.kind, b.kind)
    ensures FractionalDigits(r) >= IntermediateFractionalDigits(res, a.kind, b.kind)
  {
    assert IntegerDigits(res) + FractionalDigits(res) >= 1;
    MakeFixed(IntermediateIntegerDigits(res, a.kind, b.kind),
      IntermediateFractionalDigits(res, a.kind, b.kind), IntermediateSigned(res, a.kind))
  }

  /** `static_cast<intermediate_type>(lhs).data()`. */
  function Dividend(res: FixedKind, a: Fixed, b: Fixed): (r: int)
    requires CanDivide(res, a, b)
    ensures InRange(Intermediate(res, a, b).reprType, r)
  {
    ConvertFixed(Intermediate(res, a, b), a).repr
  }

  /** The type the built-in `/` is evaluated in: the usual arithmetic
      conversions of the intermediate and the divisor's representations. */
  function QuotientType(res: FixedKind, a: Fixed, b: Fixed): (r: IntKind)
    requires CanDivide(res, a, b)
    ensures r.Valid() && r.bytes >= b.kind.reprType.bytes
  {
    UsualArithmetic(Intermediate(res, a, b).reprType, b.kind.reprType)
  }

  /** The exponent `shift_left` rescales the quotient by. */
  function QuotientShift(res: FixedKind, a: Fixed, b: Fixed): int
    requires CanDivide(res, a, b)
  {
    Intermediate(res, a, b).exponent - b.kind.exponent - res.exponent
  }

  /** `divide<res>(lhs, rhs)`: the dividend divided by rhs's representation
      with the built-in `/` (truncating toward zero, both operands converted
      to `QuotientType`), then shifted left by `QuotientShift` into res's
      representation. */
  function Divide(res: FixedKind, a: Fixed, b: Fixed): (r: Fixed)
    requires CanDivide(res, a, b)
    ensures r.Valid() && r.kind == res
  {
    var t := QuotientType(res, a, b);
    WrapNonZero(t, b.kind.reprType, b.repr);
    var quotient := Wrap(t, TruncDiv(Wrap(t, Dividend(res, a, b)), Wrap(t, b.repr)));
    FromData(res, ShiftLeft(QuotientShift(res, a, b), res.reprType, t, quotient))
  }

  /** A divisor whose integer and fractional digits are not negative leaves
      room in the intermediate type for the dividend: the conversion only
      appends fractional zero bits, so the dividend is lhs's representation
      times 2^(lhs.exponent - intermediate.exponent). */
  lemma DividendIsExact(res: FixedKind, a: Fixed, b: Fixed)
    requires CanDivide(res, a, b)
    requires IntegerDigits(b.kind) >= 0 && FractionalDigits(b.kind) >= 0
    ensures Intermediate(res, a, b).exponent <= a.kind.exponent
    ensures Dividend(res, a, b) == a.repr * Pow2(a.kind.exponent - Intermediate(res, a, b).exponent)
  {
    var ik := Intermediate(res, a, b);
    var d := a.kind.exponent - ik.exponent;
    assert Digits(a.kind.reprType) + d <= Digits(ik.reprType);
    ScaledFits(a.kind.reprType, ik.reprType, a.repr, d);
    ConvertRoundTrip(ik, a);
  }

  /** The quotient `divide` computes with the built-in `/`, cast back to
      `QuotientType`, before it is shifted. */
  function QuotientOf(res: FixedKind, a: Fixed, b: Fixed): int
    requires CanDivide(res, a, b)
  {
    var t := QuotientType(res, a, b);
    WrapNonZero(t, b.kind.reprType, b.repr);
    Wrap(t, TruncDiv(Wrap(t, Dividend(res, a, b)), Wrap(t, b.repr)))
  }

  /** `divide`'s result is `QuotientOf` shifted into res's representation. */
  lemma DivideOfQuotient(res: FixedKind, a: Fixed, b: Fixed)
    requires CanDivide(res, a, b)
    ensures Divide(res, a, b).repr
      == ShiftLeft(QuotientShift(res, a, b), res.reprType, QuotientType(res, a, b), QuotientOf(res, a, b))
  {
    var z := ShiftLeft(QuotientShift(res, a, b), res.reprType, QuotientType(res, a, b), QuotientOf(res, a, b));
    WrapOfInRange(res.reprType, z);
  }

  /** Where no conversion changes a value (a signed quotient type, or both
      representations positive) and the quotient fits, the result is the
      truncated quotient of the dividend by rhs's representation, rescaled by
      `QuotientShift`: multiplied by a power of two, or floored. */
  lemma DivideScales(res: FixedKind, a: Fixed, b: Fixed)
    requires CanDivide(res, a, b)
    requires QuotientType(res, a, b).signed || (Dividend(res, a, b) >= 0 && b.repr > 0)
    requires InRange(QuotientType(res, a, b), TruncDiv(Dividend(res, a, b), b.repr))
    requires QuotientShift(res, a, b) >= 0
      || KeepsSign(res.reprType, QuotientType(res, a, b), TruncDiv(Dividend(res, a, b), b.repr))
    ensures Divide(res, a, b).repr
      == Scaled(QuotientShift(res, a, b), res.reprType, TruncDiv(Dividend(res, a, b), b.repr))
  {
    var ik, t := Intermediate(res, a, b), QuotientType(res, a, b);
    var x, q := Dividend(res, a, b), TruncDiv(Dividend(res, a, b), b.repr);
    RangeInclusion(ik.reprType, t, x);
    RangeInclusion(b.kind.reprType, t, b.repr);
    WrapOfInRange(t, x);
    WrapOfInRange(t, b.repr);
    WrapOfInRange(t, q);
    ShiftLeftIsScaled(QuotientShift(res, a, b), res.reprType, t, q);
  }

  /** A divisor of exponent 0 (an integer): the dividend gains at least one
      fractional digit per digit of the divisor, and the quotient is shifted
      right by the same amount. */
  lemma IntegerDivisorShift(res: FixedKind, a: Fixed, b: Fixed)
    requires CanDivide(res, a, b) && b.kind.exponent == 0 && res == a.kind
    ensures var d := a.kind.exponent - Intermediate(res, a, b).exponent;
      d > 0 && Dividend(res, a, b) == a.repr * Pow2(d) && QuotientShift(res, a, b) == -d
  {
    var ik := Intermediate(res, a, b);
    DividendIsExact(res, a, b);
    assert FractionalDigits(ik) >= FractionalDigits(a.kind) + IntegerDigits(b.kind);
  }

  /** The quotient of x 2^d by v > 0, floored by 2^d again, is x / v. */
  lemma NonNegativeQuotient(x: int, p: int, v: int)
    requires x >= 0 && p >= 1 && v >= 1
    ensures 0 <= (x * p) / v <= x * p
    ensures TruncDiv(x * p, v) == (x * p) / v
    ensures ((x * p) / v) / p == x / v && 0 <= x / v <= x
  {
    var y := x * p;
    assert y >= 0;
    DivPreservesBounds(y, v, 0, y);
    DivRemainder(y, v);
    DivOfScaled(x, v, p);
    DivPreservesBounds(x, v, 0, x);
  }

  /** `divide` of a value that is not negative by a positive integer (a
      divisor of exponent 0) into the dividend's own type is the flooring
      division of the representation. */
  lemma DivideByPositiveInteger(a: Fixed, b: Fixed)
    requires CanDivide(a.kind, a, b) && b.kind.exponent == 0 && b.repr > 0 && a.repr >= 0
    ensures Divide(a.kind, a, b).repr == a.repr / b.repr
  {
    var res := a.kind;
    var ik, t := Intermediate(res, a, b), QuotientType(res, a, b);
    var d := a.kind.exponent - ik.exponent;
    var dividend := Dividend(res, a, b);
    var q := TruncDiv(dividend, b.repr);
    assert d > 0 && dividend == a.repr * Pow2(d) && QuotientShift(res, a, b) == -d by {
      IntegerDivisorShift(res, a, b);
    }
    assert 0 <= q <= dividend && q / Pow2(d) == a.repr / b.repr && 0 <= a.repr / b.repr <= a.repr by {
      NonNegativeQuotient(a.repr, Pow2(d), b.repr);
    }
    assert InRange(t, q) by {
      assert InRange(ik.reprType, q);
      RangeInclusion(ik.reprType, t, q);
    }
    assert Divide(res, a, b).repr == Scaled(-d, res.reprType, q) by {
      DivideScales(res, a, b);
    }
    WrapOfInRange(res.reprType, a.repr / b.repr);
  }

  /** `trunc_divide(lhs, rhs)`: `divide` into `trunc_divide_result`. */
  function TruncDivide(a: Fixed, b: Fixed): (r: Fixed)
    requires a.Valid() && b.Valid() && CanDivide(TruncDivideResult(a.kind, b.kind), a, b)
    ensures r.Valid() && r.kind == TruncDivideResult(a.kind, b.kind)
  {
    Divide(TruncDivideResult(a.kind, b.kind), a, b)
  }

  /** `dividend_type` of `trunc_reciprocal`: one integer digit in the result's
      representation type. */
  function ReciprocalDividendKind(k: FixedKind): (r: FixedKind)
    requires k.Valid()
    ensures r.Valid() && IntegerDigits(r) == 1
  {
    MakeFixedFromRepr(TruncReciprocalResult(k).reprType, 1)
  }

  /** `dividend_type(1)`: the literal 1, an `int`. */
  function ReciprocalDividend(k: FixedKind): (r: Fixed)
    requires k.Valid()
    ensures r.Valid() && r.kind == ReciprocalDividendKind(k)
  {
    FromInteger(ReciprocalDividendKind(k), MakeInt(true, 4), 1)
  }

  /** `trunc_reciprocal(x)`: `divide` of one by x into
      `trunc_reciprocal_result`. */
  function TruncReciprocal(x: Fixed): (r: Fixed)
    requires x.Valid() && CanDivide(TruncReciprocalResult(x.kind), ReciprocalDividend(x.kind), x)
    ensures r.Valid() && r.kind == TruncReciprocalResult(x.kind)
  {
    Divide(TruncReciprocalResult(x.kind), ReciprocalDividend(x.kind), x)
  }

  /** `promote_divide(lhs, rhs)`: `divide` into `promote_divide_result`. */
  function PromoteDivide(a: Fixed, b: Fixed): (r: Fixed)
    requires a.Valid() && b.Valid() && a.kind.reprType.bytes <= 8 && b.kind.reprType.bytes <= 8
    requires CanDivide(PromoteDivideResult(a.kind, b.kind), a, b)
    ensures r.Valid() && r.kind == PromoteDivideResult(a.kind, b.kind)
  {
    Divide(PromoteDivideResult(a.kind, b.kind), a, b)
  }

  /** The built-in `/` of x in [-p, p) by any v != 0 stays in [-p, p]; it
      reaches p only as -p / -1, and it is not negative for x >= 0, v > 0. */
  lemma TruncDivWithin(x: int, v: int, p: int)
    requires v != 0 && -p <= x < p
    ensures -p <= TruncDiv(x, v) <= p
    ensures !(x == -p && v == -1) ==> TruncDiv(x, v) < p
    ensures x >= 0 && v > 0 ==> TruncDiv(x, v) >= 0
  {
    var m := Abs(x) / Abs(v);
    assert TruncDiv(x, v) == if (x < 0) == (v < 0) then m else -m;
    DivPreservesBounds(Abs(x), Abs(v), 0, Abs(x));
    DivRemainder(Abs(x), Abs(v));
    if Abs(v) >= 2 && m > 0 {
      MulMonotone(m, 2, Abs(v));
    }
  }

  /** The binary digits of the dividend's magnitude: lhs's integer digits
      and the intermediate type's fractional digits. */
  function DividendDigits(res: FixedKind, a: Fixed, b: Fixed): int
    requires CanDivide(res, a, b)
  {
    IntegerDigits(a.kind) + FractionalDigits(Intermediate(res, a, b))
  }

  /** With a divisor whose integer and fractional digits are not negative,
      the dividend lies in [-2^n, 2^n), n being lhs's integer digits plus the
      intermediate's fractional digits; it is -2^n only for lhs's minimum.
      When the result has `extra` integer digits beyond lhs's integer and
      rhs's fractional digits, n leaves `extra` digits of the intermediate
      type and of the rescaled result unused. */
  lemma DividendWithin(res: FixedKind, a: Fixed, b: Fixed, extra: nat)
    requires CanDivide(res, a, b) && IntegerDigits(b.kind) >= 0 && FractionalDigits(b.kind) >= 0
    requires IntegerDigits(res) >= IntegerDigits(a.kind) + FractionalDigits(b.kind) + extra
    ensures DividendDigits(res, a, b) >= 0
    ensures DividendDigits(res, a, b) + extra <= Digits(Intermediate(res, a, b).reprType)
    ensures Digits(a.kind.reprType) + Digits(b.kind.reprType) <= Digits(Intermediate(res, a, b).reprType)
    ensures DividendDigits(res, a, b) + QuotientShift(res, a, b) + extra <= Digits(res.reprType)
    ensures -(Pow2(DividendDigits(res, a, b)) as int) <= Dividend(res, a, b) < Pow2(DividendDigits(res, a, b))
    ensures a.repr >= 0 ==> Dividend(res, a, b) >= 0
    ensures Dividend(res, a, b) == -(Pow2(DividendDigits(res, a, b)) as int)
      ==> a.kind.reprType.signed && a.repr == MinValue(a.kind.reprType)
  {
    DividendDigitsWithin(res, a, b, extra);
    var n: nat := DividendDigits(res, a, b);
    var da := Digits(a.kind.reprType);
    var d: nat := a.kind.exponent - Intermediate(res, a, b).exponent;
    assert n == da + d;
    assert Dividend(res, a, b) == a.repr * Pow2(d) by {
      DividendIsExact(res, a, b);
    }
    assert -(Pow2(da) as int) <= a.repr < Pow2(da)
      && (a.repr == -(Pow2(da) as int) ==> a.kind.reprType.signed && a.repr == MinValue(a.kind.reprType)) by {
      MagnitudeBound(a.kind.reprType, a.repr);
      RangeIsPow2(a.kind.reprType);
    }
    ScaledPowerWithin(a.repr, da, d, n);
  }

  /** The digit counts behind `DividendWithin`. */
  lemma DividendDigitsWithin(res: FixedKind, a: Fixed, b: Fixed, extra: nat)
    requires CanDivide(res, a, b) && IntegerDigits(b.kind) >= 0 && FractionalDigits(b.kind) >= 0
    requires IntegerDigits(res) >= IntegerDigits(a.kind) + FractionalDigits(b.kind) + extra
    ensures DividendDigits(res, a, b) >= 0
    ensures DividendDigits(res, a, b) + extra <= Digits(Intermediate(res, a, b).reprType)
    ensures Digits(a.kind.reprType) + Digits(b.kind.reprType) <= Digits(Intermediate(res, a, b).reprType)
    ensures DividendDigits(res, a, b) + QuotientShift(res, a, b) + extra <= Digits(res.reprType)
  {
  }

  /** A value in [-2^da, 2^da) scaled by 2^d lies in [-2^n, 2^n), n being
      da + d, keeps its sign, and reaches -2^n only from -2^da. */
  lemma ScaledPowerWithin(v: int, da: nat, d: nat, n: nat)
    requires n == da + d && -(Pow2(da) as int) <= v < Pow2(da)
    ensures -(Pow2(n) as int) <= v * Pow2(d) < Pow2(n)
    ensures v >= 0 ==> v * Pow2(d) >= 0
    ensures v * Pow2(d) == -(Pow2(n) as int) ==> v == -(Pow2(da) as int)
  {
    Pow2Sum(da, d, n);
    ScaledWithin(v, Pow2(da), Pow2(d));
    if v > -(Pow2(da) as int) {
      ScaledWithin(-v, Pow2(da), Pow2(d));
      MulNegLeft(v, Pow2(d));
    }
  }

  /** The quotient of `DividendWithin`'s dividend fits the intermediate
      type and the type `/` is evaluated in, and neither it nor the result
      changes sign on the way: the quotient type is signed whenever the
      intermediate type is, being wider than the divisor's type. */
  lemma QuotientFits(res: FixedKind, a: Fixed, b: Fixed, extra: nat)
    requires CanDivide(res, a, b) && IntegerDigits(b.kind) >= 0 && FractionalDigits(b.kind) >= 0
    requires res.reprType.signed == (a.kind.reprType.signed || b.kind.reprType.signed)
    requires IntegerDigits(res) >= IntegerDigits(a.kind) + FractionalDigits(b.kind) + extra
    requires extra <= 1
    requires extra == 0 ==> !(a.kind.reprType.signed && a.repr == MinValue(a.kind.reprType) && b.repr == -1)
    ensures var t, x := QuotientType(res, a, b), Dividend(res, a, b);
      var q := TruncDiv(x, b.repr);
      (t.signed || (x >= 0 && b.repr > 0)) && InRange(t, q)
      && KeepsSign(res.reprType, t, q)
  {
    var ik, t, x := Intermediate(res, a, b).reprType, QuotientType(res, a, b), Dividend(res, a, b);
    var n: nat := DividendDigits(res, a, b);
    var q := TruncDiv(x, b.repr);
    DividendWithin(res, a, b, extra);
    TruncDivWithin(x, b.repr, Pow2(n));
    MagnitudeBound(b.kind.reprType, b.repr);
    assert !ik.signed ==> x >= 0 && b.repr > 0;
    assert InRange(ik, q) by {
      QuotientInRange(ik, q, n, extra);
    }
    if ik.signed {
      WiderSignedStaysSigned(ik, b.kind.reprType);
    }
    RangeInclusion(ik, t, q);
  }

  /** A value in [-2^n, 2^n], below 2^n unless a spare digit is left, and
      not negative for an unsigned kind, is in the range of a kind with n
      (plus the spare) digits or more. */
  lemma QuotientInRange(k: IntKind, q: int, n: nat, extra: nat)
    requires k.Valid() && n + extra <= Digits(k) && extra <= 1
    requires -(Pow2(n) as int) <= q <= Pow2(n) && (extra == 0 ==> q < Pow2(n))
    requires !k.signed ==> q >= 0
    ensures InRange(k, q)
  {
    RangeIsPow2(k);
    if extra == 1 {
      assert Pow2(n + 1) == 2 * Pow2(n);
      Pow2Monotone(n + 1, Digits(k));
    } else {
      Pow2Monotone(n, Digits(k));
    }
  }

  /** The same value rescaled by 2^s, where n + s plus the spare digit is
      at most the kind's digits, is in range too. */
  lemma RescaledInRange(k: IntKind, q: int, n: nat, s: int, extra: nat)
    requires k.Valid() && n + s + extra <= Digits(k) && extra <= 1
    requires -(Pow2(n) as int) <= q <= Pow2(n) && (extra == 0 ==> q < Pow2(n))
    requires !k.signed ==> q >= 0
    ensures InRange(k, Rescaled(s, q))
  {
    var d := Digits(k);
    RangeIsPow2(k);
    if extra == 1 {
      RescaledWithin(q, n, s, d - 1);
      Pow2Split(d, d - 1);
      assert Pow2(1) == 2;
    } else {
      RescaledWithin(q, n, s, d);
    }
  }

  /** The usual arithmetic conversions of a signed kind and a kind with
      fewer bits give a signed kind. */
  lemma WiderSignedStaysSigned(i: IntKind, k: IntKind)
    requires i.Valid() && k.Valid() && i.signed && NumBits(i) > NumBits(k)
    ensures UsualArithmetic(i, k).signed
  {
  }

  /** The quotient `divide` computes when nothing wraps: lhs's representation
      scaled to the intermediate exponent, divided by rhs's representation
      truncating toward zero, then rescaled by `QuotientShift`. */
  function ExactQuotient(res: FixedKind, a: Fixed, b: Fixed): int
    requires CanDivide(res, a, b) && IntegerDigits(b.kind) >= 0
  {
    Rescaled(QuotientShift(res, a, b),
      TruncDiv(a.repr * Pow2(a.kind.exponent - Intermediate(res, a, b).exponent), b.repr))
  }

  /** `divide` does not wrap when the divisor's integer and fractional
      digits are not negative, the result is signed when an operand is, and
      the result has lhs's integer and rhs's fractional digits, plus one when
      lhs may be its minimum and rhs -1: the result is the truncated
      quotient of the dividend (lhs's representation scaled to the
      intermediate exponent) by rhs's representation, rescaled by
      `QuotientShift`. */
  lemma DivideWithoutWrap(res: FixedKind, a: Fixed, b: Fixed, extra: nat)
    requires CanDivide(res, a, b) && IntegerDigits(b.kind) >= 0 && FractionalDigits(b.kind) >= 0
    requires res.reprType.signed == (a.kind.reprType.signed || b.kind.reprType.signed)
    requires IntegerDigits(res) >= IntegerDigits(a.kind) + FractionalDigits(b.kind) + extra
    requires extra <= 1
    requires extra == 0 ==> !(a.kind.reprType.signed && a.repr == MinValue(a.kind.reprType) && b.repr == -1)
    ensures Divide(res, a, b).repr == ExactQuotient(res, a, b)
  {
    var n: nat := DividendDigits(res, a, b);
    var s := QuotientShift(res, a, b);
    var x := Dividend(res, a, b);
    var q := TruncDiv(x, b.repr);
    var p := Pow2(n);
    assert -p <= x < p && n + s + extra <= Digits(res.reprType) && (a.repr >= 0 ==> x >= 0)
      && (x == -p ==> a.kind.reprType.signed && a.repr == MinValue(a.kind.reprType)) by {
      DividendWithin(res, a, b, extra);
    }
    assert -p <= q <= p && (extra == 0 ==> q < p) && (!res.reprType.signed ==> q >= 0) by {
      TruncDivWithin(x, b.repr, p);
      MagnitudeBound(a.kind.reprType, a.repr);
      MagnitudeBound(b.kind.reprType, b.repr);
    }
    assert InRange(res.reprType, Rescaled(s, q)) by {
      RescaledInRange(res.reprType, q, n, s, extra);
    }
    assert Divide(res, a, b).repr == Scaled(s, res.reprType, q) by {
      QuotientFits(res, a, b, extra);
      DivideScales(res, a, b);
    }
    assert Divide(res, a, b).repr == Rescaled(s, q) by {
      WrapOfInRange(res.reprType, Rescaled(s, q));
    }
    ExactQuotientOfDividend(res, a, b);
  }

  /** `ExactQuotient` divides the dividend itself: its conversion into the
      intermediate type is exact. */
  lemma ExactQuotientOfDividend(res: FixedKind, a: Fixed, b: Fixed)
    requires CanDivide(res, a, b) && IntegerDigits(b.kind) >= 0 && FractionalDigits(b.kind) >= 0
    ensures ExactQuotient(res, a, b) == Rescaled(QuotientShift(res, a, b), TruncDiv(Dividend(res, a, b), b.repr))
  {
    DividendIsExact(res, a, b);
  }

  /** Except for lhs's minimum divided by -1, `trunc_divide` by a divisor
      whose integer and fractional digits are not negative never wraps: its
      result is the truncated quotient of lhs's representation, scaled to
      the intermediate exponent, by rhs's representation, rescaled by
      `QuotientShift`. */
  lemma TruncDivideOtherwiseExact(a: Fixed, b: Fixed)
    requires a.Valid() && b.Valid() && CanDivide(TruncDivideResult(a.kind, b.kind), a, b)
    requires IntegerDigits(b.kind) >= 0 && FractionalDigits(b.kind) >= 0
    requires !(a.kind.reprType.signed && a.repr == MinValue(a.kind.reprType) && b.repr == -1)
    ensures var res := TruncDivideResult(a.kind, b.kind);
      TruncDivide(a, b).repr == ExactQuotient(res, a, b)
  {
    var res := TruncDivideResult(a.kind, b.kind);
    TruncDivideResultSigned(a.kind, b.kind);
    assert TruncDivide(a, b) == Divide(res, a, b);
    DivideWithoutWrap(res, a, b, 0);
  }

  /** `trunc_divide`'s result is signed when either operand is. */
  lemma TruncDivideResultSigned(a: FixedKind, b: FixedKind)
    requires a.Valid() && b.Valid()
    ensures TruncDivideResult(a, b).reprType.signed == (a.reprType.signed || b.reprType.signed)
  {
    assert TruncDivideResult(a, b).reprType == CommonReprType([a.reprType, b.reprType]);
  }

  /** The corrected `trunc_divide_result`: one more integer digit when both
      operands are signed, which holds lhs's minimum divided by -1. */
  function ExactTruncDivideResult(a: FixedKind, b: FixedKind): (r: FixedKind)
    requires a.Valid() && b.Valid()
    ensures r.Valid() && r.reprType == TruncDivideResult(a, b).reprType
    ensures IntegerDigits(r)
      == IntegerDigits(a) + FractionalDigits(b) + SignBit(a.reprType.signed && b.reprType.signed)
  {
    MakeFixedFromRepr(CommonReprType([a.reprType, b.reprType]),
      IntegerDigits(a) + FractionalDigits(b) + SignBit(a.reprType.signed && b.reprType.signed))
  }

  /** `trunc_divide` into the corrected result type. */
  function ExactTruncDivide(a: Fixed, b: Fixed): (r: Fixed)
    requires a.Valid() && b.Valid() && CanDivide(ExactTruncDivideResult(a.kind, b.kind), a, b)
    ensures r.Valid() && r.kind == ExactTruncDivideResult(a.kind, b.kind)
  {
    Divide(ExactTruncDivideResult(a.kind, b.kind), a, b)
  }

  /** With the corrected result type every quotient by a divisor whose
      integer and fractional digits are not negative is exact in the sense
      of `TruncDivideOtherwiseExact`, lhs's minimum divided by -1 included. */
  lemma ExactTruncDivideIsExact(a: Fixed, b: Fixed)
    requires a.Valid() && b.Valid() && CanDivide(ExactTruncDivideResult(a.kind, b.kind), a, b)
    requires IntegerDigits(b.kind) >= 0 && FractionalDigits(b.kind) >= 0
    ensures ExactTruncDivide(a, b).repr == ExactQuotient(ExactTruncDivideResult(a.kind, b.kind), a, b)
  {
    var res := ExactTruncDivideResult(a.kind, b.kind);
    TruncDivideResultSigned(a.kind, b.kind);
    MagnitudeBound(b.kind.reprType, b.repr);
    DivideWithoutWrap(res, a, b, SignBit(a.kind.reprType.signed && b.kind.reprType.signed));
  }

  /** `trunc_reciprocal` of a value whose integer and fractional digits are
      not negative never wraps: the dividend 1 becomes 2^f in the
      intermediate type, f being its fractional digits, and the result is
      2^f divided by the representation (truncated), rescaled by
      `QuotientShift`. */
  lemma TruncReciprocalIsExact(x: Fixed)
    requires x.Valid() && CanDivide(TruncReciprocalResult(x.kind), ReciprocalDividend(x.kind), x)
    requires IntegerDigits(x.kind) >= 0 && FractionalDigits(x.kind) >= 0
    ensures var res, one := TruncReciprocalResult(x.kind), ReciprocalDividend(x.kind);
      TruncReciprocal(x).repr == Rescaled(QuotientShift(res, one, x),
        TruncDiv(Pow2(FractionalDigits(Intermediate(res, one, x))), x.repr))
  {
    var res, one := TruncReciprocalResult(x.kind), ReciprocalDividend(x.kind);
    ReciprocalDividendIsPower(x.kind);
    DivideOfPower(res, one, x);
  }

  /** `divide` of lhs = 2^f at exponent -f (the value 1) divides 2^fi by
      rhs's representation, fi being the intermediate's fractional digits,
      and does not wrap when the result has the dividend's integer digits
      plus rhs's fractional digits. */
  lemma DivideOfPower(res: FixedKind, a: Fixed, b: Fixed)
    requires CanDivide(res, a, b) && IntegerDigits(b.kind) >= 0 && FractionalDigits(b.kind) >= 0
    requires res.reprType.signed == (a.kind.reprType.signed || b.kind.reprType.signed)
    requires IntegerDigits(res) >= IntegerDigits(a.kind) + FractionalDigits(b.kind)
    requires FractionalDigits(a.kind) >= 0 && a.repr == Pow2(FractionalDigits(a.kind))
    ensures Divide(res, a, b).repr == Rescaled(QuotientShift(res, a, b),
      TruncDiv(Pow2(FractionalDigits(Intermediate(res, a, b))), b.repr))
  {
    var ik := Intermediate(res, a, b);
    DividendIsExact(res, a, b);
    Pow2Sum(FractionalDigits(a.kind), a.kind.exponent - ik.exponent, FractionalDigits(ik));
    RangeIsPow2(a.kind.reprType);
    DivideWithoutWrap(res, a, b, 0);
  }

  /** `dividend_type(1)` holds 1 exactly: its representation is 2^f, f being
      its fractional digits, one fewer than the representation's digits. */
  lemma ReciprocalDividendIsPower(k: FixedKind)
    requires k.Valid()
    ensures var one := ReciprocalDividend(k);
      FractionalDigits(one.kind) == Digits(k.reprType) - 1 >= 0
      && one.repr == Pow2(FractionalDigits(one.kind))
  {
    var dk := ReciprocalDividendKind(k);
    assert dk.reprType == k.reprType && dk.exponent == 1 - Digits(k.reprType);
    IntegerOneIsPower(dk);
  }

  /** The `int` 1 converted to a type with fewer fractional digits than
      digits is 2^f, f being its fractional digits. */
  lemma IntegerOneIsPower(k: FixedKind)
    requires k.Valid() && 0 <= FractionalDigits(k) < Digits(k.reprType)
    ensures FromInteger(k, MakeInt(true, 4), 1).repr == Pow2(FractionalDigits(k))
  {
    var f: nat := FractionalDigits(k);
    ShiftRightIsScaled(k.exponent, k.reprType, MakeInt(true, 4), 1);
    assert Rescaled(f, 1) == Pow2(f);
    assert InRange(k.reprType, Pow2(f)) by {
      RangeIsPow2(k.reprType);
      Pow2Monotone(f + 1, Digits(k.reprType));
      assert Pow2(f + 1) == 2 * Pow2(f);
    }
    WrapOfInRange(k.reprType, Pow2(f));
  }

  /** `promote_divide` does not wrap when the result type has at least lhs's
      integer digits plus rhs's fractional digits and the divisor's integer
      and fractional digits are not negative, lhs's minimum divided by -1
      excepted. */
  lemma PromoteDivideWithinRange(a: Fixed, b: Fixed)
    requires a.Valid() && b.Valid() && a.kind.reprType.bytes <= 8 && b.kind.reprType.bytes <= 8
    requires CanDivide(PromoteDivideResult(a.kind, b.kind), a, b)
    requires IntegerDigits(b.kind) >= 0 && FractionalDigits(b.kind) >= 0
    requires IntegerDigits(PromoteDivideResult(a.kind, b.kind)) >= IntegerDigits(a.kind) + FractionalDigits(b.kind)
    requires !(a.kind.reprType.signed && a.repr == MinValue(a.kind.reprType) && b.repr == -1)
    ensures var res := PromoteDivideResult(a.kind, b.kind);
      PromoteDivide(a, b).repr == ExactQuotient(res, a, b)
  {
    var res := PromoteDivideResult(a.kind, b.kind);
    assert res == PromoteResult(CommonType(a.kind, b.kind));
    assert res.reprType.signed == (a.kind.reprType.signed || b.kind.reprType.signed);
    assert PromoteDivide(a, b) == Divide(res, a, b);
    DivideWithoutWrap(res, a, b, 0);
  }

  /** As written, `trunc_divide` of lhs's minimum by -1 wraps: the quotient
      is 2^digits of the result type, one more than its maximum, and comes
      out as the result type's minimum, a negative value. */
  lemma TruncDivideOfMinimumByMinusOneWraps(a: Fixed, b: Fixed)
    requires a.Valid() && b.Valid() && CanDivide(TruncDivideResult(a.kind, b.kind), a, b)
    requires IntegerDigits(b.kind) >= 0 && FractionalDigits(b.kind) >= 0
    requires a.kind.reprType.signed && a.repr == MinValue(a.kind.reprType) && b.repr == -1
    ensures TruncDivide(a, b).repr == MinValue(TruncDivideResult(a.kind, b.kind).reprType) < 0
  {
    var res := TruncDivideResult(a.kind, b.kind);
    var t := QuotientType(res, a, b);
    var n: nat := DividendDigits(res, a, b);
    var sh := QuotientShift(res, a, b);
    MinimumByMinusOne(res, a, b, n);
    var q := Wrap(t, -Dividend(res, a, b));
    assert q == Wrap(t, Pow2(n));
    DivideByMinusOne(res, a, b);
    assert Divide(res, a, b).repr == Scaled(sh, res.reprType, q);
    WrappedPowerRescaled(t, res.reprType, n, sh);
    assert Scaled(sh, res.reprType, q) == MinValue(res.reprType);
    assert TruncDivide(a, b) == Divide(res, a, b);
  }

  /** The facts about lhs's minimum divided by -1 into a result type with
      exactly lhs's integer and rhs's fractional digits: the quotient type is
      signed and holds the dividend -2^n, and n plus the shift is the result's
      digits. */
  lemma MinimumByMinusOne(res: FixedKind, a: Fixed, b: Fixed, n: nat)
    requires CanDivide(res, a, b) && IntegerDigits(b.kind) >= 0 && FractionalDigits(b.kind) >= 0
    requires res.reprType.signed == (a.kind.reprType.signed || b.kind.reprType.signed)
    requires IntegerDigits(res) == IntegerDigits(a.kind) + FractionalDigits(b.kind)
    requires a.kind.reprType.signed && a.repr == MinValue(a.kind.reprType)
    requires n == DividendDigits(res, a, b)
    ensures var t, x := QuotientType(res, a, b), Dividend(res, a, b);
      t.signed && InRange(t, x) && -x == Pow2(n) && n <= Digits(t)
      && n + QuotientShift(res, a, b) == Digits(res.reprType)
  {
    var ik, t := Intermediate(res, a, b), QuotientType(res, a, b);
    var x := Dividend(res, a, b);
    DividendWithin(res, a, b, 0);
    MinimumDividend(res, a, b);
    WiderSignedStaysSigned(ik.reprType, b.kind.reprType);
    RangeInclusion(ik.reprType, t, x);
  }

  /** 2^n reduced into a signed kind t with at least n digits and then
      rescaled by 2^s into a signed kind with n + s digits is that kind's
      minimum. */
  lemma WrappedPowerRescaled(t: IntKind, r: IntKind, n: nat, s: int)
    requires t.Valid() && r.Valid() && t.signed && r.signed && n <= Digits(t)
    requires n + s == Digits(r)
    ensures Wrap(r, Rescaled(s, Wrap(t, Pow2(n)))) == MinValue(r) < 0
  {
    var d := Digits(r);
    PowerWrap(t, n);
    RescaledPower(n, s, d);
    RangeIsPow2(r);
    WrapOfDigitsPower(r);
    WrapOfInRange(r, MinValue(r));
  }

  /** The dividend of lhs's minimum is -2^n, n being lhs's integer digits
      plus the intermediate's fractional digits. */
  lemma MinimumDividend(res: FixedKind, a: Fixed, b: Fixed)
    requires CanDivide(res, a, b) && IntegerDigits(b.kind) >= 0 && FractionalDigits(b.kind) >= 0
    requires a.kind.reprType.signed && a.repr == MinValue(a.kind.reprType)
    ensures Dividend(res, a, b)
      == -(Pow2(DividendDigits(res, a, b)) as int)
  {
    var ik := Intermediate(res, a, b);
    var da := Digits(a.kind.reprType);
    DividendIsExact(res, a, b);
    RangeIsPow2(a.kind.reprType);
    MulNegLeft(Pow2(da), Pow2(a.kind.exponent - ik.exponent));
    Pow2Sum(da, a.kind.exponent - ik.exponent, DividendDigits(res, a, b));
  }

  /** `divide` by a representation of -1, where the quotient type is
      signed and holds the dividend: the negated dividend reduced into the
      quotient type, rescaled into the (signed) result type. */
  lemma DivideByMinusOne(res: FixedKind, a: Fixed, b: Fixed)
    requires CanDivide(res, a, b) && b.repr == -1 && res.reprType.signed
    requires QuotientType(res, a, b).signed && InRange(QuotientType(res, a, b), Dividend(res, a, b))
    ensures var t := QuotientType(res, a, b);
      Divide(res, a, b).repr
        == Scaled(QuotientShift(res, a, b), res.reprType, Wrap(t, -Dividend(res, a, b)))
  {
    var t, x := QuotientType(res, a, b), Dividend(res, a, b);
    var sh := QuotientShift(res, a, b);
    var q := Wrap(t, -x);
    assert QuotientOf(res, a, b) == q by {
      var wx, wb := Wrap(t, x), Wrap(t, b.repr);
      assert wx == x by {
        WrapOfInRange(t, x);
      }
      assert wb == -1 by {
        RangeIsPow2(t);
        WrapOfInRange(t, -1);
      }
      assert TruncDiv(wx, wb) == -x;
    }
    assert Divide(res, a, b).repr == ShiftLeft(sh, res.reprType, t, q) by {
      DivideOfQuotient(res, a, b);
    }
    assert ShiftLeft(sh, res.reprType, t, q) == Scaled(sh, res.reprType, q) by {
      ShiftLeftIsScaled(sh, res.reprType, t, q);
    }
  }

  /** `promote_divide` wraps whenever the quotient needs more integer digits
      than the promoted type has: in `fixed_point<int8_t, -7>`, 0.5 (raw 64)
      divided by 2^-7 (raw 1) is 64, but the result type
      `fixed_point<int16_t, -14>` holds only [-2, 2), and the result comes
      out 0. */
  lemma PromoteDivideCanWrap(a: Fixed, b: Fixed)
    requires a == Fixed(FixedKind(MakeInt(true, 1), -7), 64)
    requires b == Fixed(FixedKind(MakeInt(true, 1), -7), 1)
    ensures CanDivide(PromoteDivideResult(a.kind, b.kind), a, b)
    ensures PromoteDivideResult(a.kind, b.kind) == FixedKind(MakeInt(true, 2), -14)
    ensures PromoteDivide(a, b).repr == 0
  {
    var k := a.kind;
    var res := FixedKind(MakeInt(true, 2), -14);
    assert PromoteDivideResult(k, k) == res by {
      CommonTypeSymmetric(k, k);
      assert PromoteDivideResult(k, k) == PromoteResult(k);
    }
    PromoteDivisionIntermediate(res, a, b);
    PromoteDivisionDividend(res, a, b);
    PromoteDivisionQuotient(res, a, b);
    assert PromoteDivide(a, b) == Divide(res, a, b);
  }

  /** Its dividend is 64 scaled by 2^17, 2^23. */
  lemma PromoteDivisionDividend(res: FixedKind, a: Fixed, b: Fixed)
    requires CanDivide(res, a, b) && a == Fixed(FixedKind(MakeInt(true, 1), -7), 64)
    requires b.kind == FixedKind(MakeInt(true, 1), -7) && Intermediate(res, a, b).exponent == -24
    ensures Dividend(res, a, b) == 0x80_0000
  {
    DividendIsExact(res, a, b);
    Pow2Of16();
    assert Pow2(17) == 2 * Pow2(16);
  }

  /** That division goes through a 32-bit intermediate with 24 fractional
      bits. */
  lemma PromoteDivisionIntermediate(res: FixedKind, a: Fixed, b: Fixed)
    requires res == FixedKind(MakeInt(true, 2), -14)
    requires a == Fixed(FixedKind(MakeInt(true, 1), -7), 64)
    requires b == Fixed(FixedKind(MakeInt(true, 1), -7), 1)
    ensures CanDivide(res, a, b)
    ensures var ik := Intermediate(res, a, b);
      ik.exponent == -24 && ik.reprType == MakeInt(true, 4)
  {
    var k := a.kind;
    assert a.Valid() && b.Valid() by {
      Pow2Of8();
    }
    PromoteDivisionDigits(res, k);
    assert CanDivide(res, a, b);
    var r := SufficientRepr(22, true);
    TwentyTwoBitsAreInt32(r);
    assert Intermediate(res, a, b) == FixedKind(r, -24);
  }

  /** Its intermediate type has 7 integer and 14 fractional digits. */
  lemma PromoteDivisionDigits(res: FixedKind, k: FixedKind)
    requires res == FixedKind(MakeInt(true, 2), -14) && k == FixedKind(MakeInt(true, 1), -7)
    ensures res.Valid() && k.Valid()
    ensures IntermediateIntegerDigits(res, k, k) == 7 && IntermediateFractionalDigits(res, k, k) == 14
  {
    assert IntegerDigits(res) == 1 && FractionalDigits(res) == 14;
    assert IntegerDigits(k) == 0 && FractionalDigits(k) == 7;
  }

  lemma TwentyTwoBitsAreInt32(r: IntKind)
    requires r == SufficientRepr(22, true)
    ensures r == MakeInt(true, 4) && MakeFixed(7, 14, true) == FixedKind(r, -24)
  {
    SufficientReprIs(22, true, 4);
  }

  /** 0x80_0000 / 1 shifted right by 3 bits is 0x10_0000, which cast to
      `int16_t` is 0. */
  lemma PromoteDivisionQuotient(res: FixedKind, a: Fixed, b: Fixed)
    requires res == FixedKind(MakeInt(true, 2), -14) && b == Fixed(FixedKind(MakeInt(true, 1), -7), 1)
    requires CanDivide(res, a, b) && Dividend(res, a, b) == 0x80_0000
    requires var ik := Intermediate(res, a, b);
      ik.exponent == -24 && ik.reprType == MakeInt(true, 4)
    ensures Divide(res, a, b).repr == 0
  {
    var x, t := Dividend(res, a, b), QuotientType(res, a, b);
    var q := TruncDiv(x, b.repr);
    assert q == 0x80_0000 by {
      TruncDivExact(0x80_0000, 1);
    }
    assert t.signed && t.bytes >= 4 && QuotientShift(res, a, b) == -3;
    PowerFitsInt32(t);
    DivideScales(res, a, b);
    PowerShiftedIntoInt16();
  }

  /** 2^23 fits in any signed kind of 32 bits or more. */
  lemma PowerFitsInt32(t: IntKind)
    requires t.Valid() && t.signed && t.bytes >= 4
    ensures InRange(t, 0x80_0000)
  {
    RangeIsPow2(t);
    Pow2Monotone(31, Digits(t));
    Pow2Of32();
  }

  /** 2^23 shifted right by 3 bits and cast to `int16_t` is 0. */
  lemma PowerShiftedIntoInt16()
    ensures MakeInt(true, 2).Valid() && Scaled(-3, MakeInt(true, 2), 0x80_0000) == 0
  {
    assert Pow2(3) == 8;
    assert Rescaled(-3, 0x80_0000) == 0x10_0000;
    Pow2Of16();
    WrapUnique(MakeInt(true, 2), 0, 0x10_0000);
  }

  /** The quotient is truncated toward zero but its rescale floors: for
      `fixed_point<int32_t, 0>`, -7 / 2 divides -7 * 2^32 by 2 exactly in
      the 64-bit intermediate and shifts the quotient right by 32 bits, which
      gives -4, not the -3 that truncation toward zero would give. */
  lemma DivisionOfNegativeIntegersFloors(k: FixedKind, a: Fixed, b: Fixed)
    requires k == FixedKind(MakeInt(true, 4), 0) && a == Fixed(k, -7) && b == Fixed(k, 2)
    ensures CanDivide(k, a, b) && Divide(k, a, b).repr == -4
  {
    Int32DivisionIntermediate(k, a, b);
    DividendOfMinusSeven(k, a, b);
    QuotientOfMinusSevenByTwo(k, a, b);
  }

  /** Dividing two `int32_t` integers goes through a 64-bit intermediate
      with 32 fractional bits. */
  lemma Int32DivisionIntermediate(k: FixedKind, a: Fixed, b: Fixed)
    requires k == FixedKind(MakeInt(true, 4), 0) && a.Valid() && b.Valid()
    requires a.kind == k && b.kind == k && b.repr != 0
    ensures CanDivide(k, a, b)
    ensures var ik := Intermediate(k, a, b);
      ik.exponent == -32 && ik.reprType.bytes == 8 && ik.reprType.signed
  {
    assert IntegerDigits(k) == 31 && FractionalDigits(k) == 0;
    assert IntermediateIntegerDigits(k, a.kind, b.kind) == 31;
    assert IntermediateFractionalDigits(k, a.kind, b.kind) == 31;
    assert CanDivide(k, a, b);
    var r := SufficientRepr(63, true);
    SixtyThreeBitsAreInt64(r);
    assert Intermediate(k, a, b) == FixedKind(r, -32);
  }

  lemma SixtyThreeBitsAreInt64(r: IntKind)
    requires r == SufficientRepr(63, true)
    ensures r == MakeInt(true, 8) && MakeFixed(31, 31, true) == FixedKind(r, -32)
  {
    SufficientReprIs(63, true, 8);
  }

  lemma DividendOfMinusSeven(res: FixedKind, a: Fixed, b: Fixed)
    requires CanDivide(res, a, b) && Intermediate(res, a, b).exponent == -32
    requires a.kind.exponent == 0 && a.repr == -7
    requires IntegerDigits(b.kind) >= 0 && FractionalDigits(b.kind) >= 0
    ensures Dividend(res, a, b) == -7 * 0x1_0000_0000
  {
    DividendIsExact(res, a, b);
    Pow2Of32();
  }

  lemma QuotientOfMinusSevenByTwo(res: FixedKind, a: Fixed, b: Fixed)
    requires CanDivide(res, a, b) && Dividend(res, a, b) == -7 * 0x1_0000_0000 && b.repr == 2
    requires var ik := Intermediate(res, a, b);
      ik.exponent == -32 && ik.reprType.bytes == 8 && ik.reprType.signed
    requires b.kind == res && res == FixedKind(MakeInt(true, 4), 0)
    ensures Divide(res, a, b).repr == -4
  {
    var q := -7 * 0x8000_0000;
    TruncDivExact(q, 2);
    assert TruncDiv(Dividend(res, a, b), b.repr) == q;
    assert QuotientType(res, a, b).signed;
    assert QuotientShift(res, a, b) == -32;
    assert InRange(QuotientType(res, a, b), q);
    DivideScales(res, a, b);
    Pow2Of32();
    assert q / 0x1_0000_0000 == -4;
    WrapOfInRange(res.reprType, -4);
  }

  /** `trunc_reciprocal` of 4.0 held as `fixed_point<int8_t, -4>` (raw 64) is
      raw 1 at exponent -2, which is 0.25. */
  lemma ReciprocalOfFour(x: Fixed)
    requires x == Fixed(FixedKind(MakeInt(true, 1), -4), 64)
    ensures CanDivide(TruncReciprocalResult(x.kind), ReciprocalDividend(x.kind), x)
    ensures TruncReciprocal(x).kind.exponent == -2 && TruncReciprocal(x).repr == 1
  {
    ReciprocalOperands(x);
    ReciprocalDivision(TruncReciprocalResult(x.kind), ReciprocalDividend(x.kind), x);
  }

  lemma ReciprocalDivision(res: FixedKind, one: Fixed, x: Fixed)
    requires res == FixedKind(MakeInt(true, 1), -2)
    requires one == Fixed(FixedKind(MakeInt(true, 1), -6), 64)
    requires x == Fixed(FixedKind(MakeInt(true, 1), -4), 64)
    ensures CanDivide(res, one, x) && Divide(res, one, x).repr == 1
  {
    ReciprocalIntermediate(res, one, x);
    ReciprocalDividendValue(res, one, x);
    ReciprocalQuotient(res, one, x);
  }

  /** The dividend 1 (raw 64 at exponent -6) is raw 1024 at exponent -10. */
  lemma ReciprocalDividendValue(res: FixedKind, one: Fixed, x: Fixed)
    requires CanDivide(res, one, x) && Intermediate(res, one, x).exponent == -10
    requires one.kind.exponent == -6 && one.repr == 64
    requires IntegerDigits(x.kind) >= 0 && FractionalDigits(x.kind) >= 0
    ensures Dividend(res, one, x) == 1024
  {
    DividendIsExact(res, one, x);
    assert Pow2(4) == 16;
  }

  /** The operands of that reciprocal: the result type has exponent -2 and
      the dividend is 1 as raw 64 at exponent -6. */
  lemma ReciprocalOperands(x: Fixed)
    requires x == Fixed(FixedKind(MakeInt(true, 1), -4), 64)
    ensures TruncReciprocalResult(x.kind) == FixedKind(MakeInt(true, 1), -2)
    ensures ReciprocalDividend(x.kind) == Fixed(FixedKind(MakeInt(true, 1), -6), 64)
  {
    var dk := ReciprocalDividendKind(x.kind);
    assert dk == FixedKind(MakeInt(true, 1), -6);
    ShiftRightIsScaled(dk.exponent, dk.reprType, MakeInt(true, 4), 1);
    assert Pow2(6) == 64;
    WrapOfInRange(dk.reprType, 64);
  }

  /** Its intermediate type has 5 integer and 9 fractional digits, a 16-bit
      representation at exponent -10. */
  lemma ReciprocalIntermediate(res: FixedKind, one: Fixed, x: Fixed)
    requires res == FixedKind(MakeInt(true, 1), -2)
    requires one == Fixed(FixedKind(MakeInt(true, 1), -6), 64)
    requires x == Fixed(FixedKind(MakeInt(true, 1), -4), 64)
    ensures CanDivide(res, one, x)
    ensures var ik := Intermediate(res, one, x);
      ik.exponent == -10 && ik.reprType.bytes == 2 && ik.reprType.signed
  {
    assert IntermediateIntegerDigits(res, one.kind, x.kind) == 5;
    assert IntermediateFractionalDigits(res, one.kind, x.kind) == 9;
    var r := SufficientRepr(15, true);
    FifteenBitsAreInt16(r);
    assert Intermediate(res, one, x) == FixedKind(r, -10);
  }

  lemma FifteenBitsAreInt16(r: IntKind)
    requires r == SufficientRepr(15, true)
    ensures r == MakeInt(true, 2) && MakeFixed(5, 9, true) == FixedKind(r, -10)
  {
    SufficientReprIs(15, true, 2);
  }

  /** 1024 / 64 is 16 in `int`, and 16 shifted right by 4 bits is 1. */
  lemma ReciprocalQuotient(res: FixedKind, one: Fixed, x: Fixed)
    requires CanDivide(res, one, x) && Dividend(res, one, x) == 1024 && x.repr == 64
    requires var ik := Intermediate(res, one, x);
      ik.exponent == -10 && ik.reprType.bytes == 2 && ik.reprType.signed
    requires res == FixedKind(MakeInt(true, 1), -2) && x.kind == FixedKind(MakeInt(true, 1), -4)
    ensures Divide(res, one, x).repr == 1
  {
    var t := QuotientType(res, one, x);
    var q := TruncDiv(Dividend(res, one, x), x.repr);
    assert q == 16 by {
      TruncDivExact(16, 64);
    }
    assert t.signed && QuotientShift(res, one, x) == -4;
    SixteenFits(t);
    DivideScales(res, one, x);
    SixteenShiftedIntoInt8();
  }

  /** 16 fits in any signed kind. */
  lemma SixteenFits(t: IntKind)
    requires t.Valid() && t.signed
    ensures InRange(t, 16)
  {
    RangeIsPow2(t);
    Pow2Monotone(7, Digits(t));
    assert Pow2(7) == 128;
  }

  /** 16 shifted right by 4 bits and cast to `int8_t` is 1. */
  lemma SixteenShiftedIntoInt8()
    ensures MakeInt(true, 1).Valid() && Scaled(-4, MakeInt(true, 1), 16) == 1
  {
    assert Pow2(4) == 16;
    WrapOfInRange(MakeInt(true, 1), 1);
  }
}
