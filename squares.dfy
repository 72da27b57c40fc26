/** `trunc_square` and `promote_square`: a value multiplied by itself into an
    unsigned result type. Both result types give the square twice the
    integer digits of the root, which holds every square but one: the
    square of the most negative value of a signed type is 2^(2 integer
    digits), one past the largest value such a type holds. */
module Squares {
  import opened Bits
  import opened IntKinds
  import opened Shifts
  import opened FixedPoint
  import opened TypeResolution
  import opened Multiplication

  /** `trunc_square(root)`: `multiply` of a value by itself into
      `trunc_square_result`. */
  function TruncSquare(x: Fixed): (r: Fixed)
    requires CanMultiply(x, x)
    ensures r.Valid() && r.kind == TruncSquareResult(x.kind)
  {
    Multiply(TruncSquareResult(x.kind), x, x)
  }

  /** The number of bits `multiply` drops from the square of the
      representation: digits - sign bit for `trunc_square_result`. */
  lemma TruncSquareShift(x: Fixed)
    requires CanMultiply(x, x)
    ensures var k := x.kind;
      x.kind.exponent * 2 - TruncSquareResult(k).exponent
        == -(Digits(k.reprType) - SignBit(k.reprType.signed))
    ensures TruncSquare(x).repr
      == Wrap(MakeUnsigned(x.kind.reprType), (x.repr * x.repr) / Pow2(Digits(x.kind.reprType) - SignBit(x.kind.reprType.signed)))
  {
    var k := x.kind;
    var res := TruncSquareResult(k);
    assert res.exponent == 2 * IntegerDigits(k) - NumBits(k.reprType);
    MultiplyScales(res, x, x);
  }

  /** As written, the square of the most negative value of a signed type
      wraps round to zero: it is 2^(digits + 1) units of the result, and the
      unsigned result type holds values below 2^(digits + 1). */
  lemma TruncSquareOfMinimumIsZero(x: Fixed)
    requires CanMultiply(x, x) && x.kind.reprType.signed && x.repr == MinValue(x.kind.reprType)
    ensures TruncSquare(x).repr == 0
  {
    var t, u := x.kind.reprType, MakeUnsigned(x.kind.reprType);
    var d := Digits(t);
    TruncSquareShift(x);
    SquareOfMinimum(t, x.repr);
    WrapOfModulus(u);
  }

  /** The square of -2^digits, floored by 2^(digits - 1), is 2^bits. */
  lemma SquareOfMinimum(t: IntKind, x: int)
    requires t.Valid() && t.signed && x == MinValue(t)
    ensures Digits(t) >= 1 && (x * x) / Pow2(Digits(t) - 1) == Modulus(MakeUnsigned(t))
  {
    var d := Digits(t);
    RangeIsPow2(t);
    RangeIsPow2(MakeUnsigned(t));
    Pow2Add(d, d);
    assert x * x == Pow2(d) * Pow2(d);
    Pow2Add(d + 1, d - 1);
    assert d + 1 + (d - 1) == d + d;
    MulDivCancel(Pow2(d + 1), Pow2(d - 1));
  }

  /** Every other root squares exactly: the square of the representation,
      floored by 2^(digits - sign bit), fits the unsigned result. */
  lemma TruncSquareOtherwiseExact(x: Fixed)
    requires CanMultiply(x, x)
    requires x.kind.reprType.signed ==> x.repr > MinValue(x.kind.reprType)
    ensures TruncSquare(x).repr
      == (x.repr * x.repr) / Pow2(Digits(x.kind.reprType) - SignBit(x.kind.reprType.signed))
  {
    var t := x.kind.reprType;
    var d, s := Digits(t), SignBit(t.signed);
    TruncSquareShift(x);
    var p := Pow2(d);
    MagnitudeBound(t, x.repr);
    RangeIsPow2(t);
    assert Abs(x.repr) < p;
    FlooredSquareBelow(x.repr, d, d - s, NumBits(t));
    RangeIsPow2(MakeUnsigned(t));
    WrapOfInRange(MakeUnsigned(t), (x.repr * x.repr) / Pow2(d - s));
  }

  /** A square below 2^(2d), floored by 2^t, is below 2^n when 2d <= n + t. */
  lemma FlooredSquareBelow(x: int, d: nat, t: nat, n: nat)
    requires Abs(x) < Pow2(d) && d + d <= n + t
    ensures 0 <= (x * x) / Pow2(t) < Pow2(n)
  {
    var sq := x * x;
    SquareBelowPower(x, d);
    assert Pow2(d + d) <= Pow2(n) * Pow2(t) by {
      Pow2Add(n, t);
      Pow2Monotone(d + d, n + t);
    }
    DivBelow(sq, Pow2(t), Pow2(n));
    DivPreservesBounds(sq, Pow2(t), 0, sq);
  }

  /** A square of magnitude below 2^d is below 2^(2d). */
  lemma SquareBelowPower(x: int, d: nat)
    requires Abs(x) < Pow2(d)
    ensures 0 <= x * x < Pow2(d + d)
  {
    AbsMul(x, x);
    UnsignedProduct(Abs(x), Abs(x), Pow2(d), Pow2(d));
    Pow2Add(d, d);
  }

  /** A square of magnitude at most 2^(2d), floored by 2^t, is below 2^n
      when 2d < n + t. */
  lemma FlooredSquareAtMost(x: int, d: nat, t: nat, n: nat)
    requires Abs(x) <= Pow2(d) && d + d < n + t
    ensures 0 <= (x * x) / Pow2(t) < Pow2(n)
  {
    var sq := x * x;
    SquareWithinPower(x, d);
    assert Pow2(d + d) < Pow2(n) * Pow2(t) by {
      Pow2Add(n, t);
      Pow2Monotone(d + d + 1, n + t);
      assert Pow2(d + d + 1) == 2 * Pow2(d + d);
    }
    DivBelow(sq, Pow2(t), Pow2(n));
    DivPreservesBounds(sq, Pow2(t), 0, sq);
  }

  /** A square of magnitude at most 2^d is at most 2^(2d). */
  lemma SquareWithinPower(x: int, d: nat)
    requires Abs(x) <= Pow2(d)
    ensures 0 <= x * x <= Pow2(d + d)
  {
    AbsMul(x, x);
    MulBound(Abs(x), Abs(x), Pow2(d), Pow2(d));
    MulBound(0, 0, Abs(x), Abs(x));
    Pow2Add(d, d);
  }

  /** A value congruent to 0 casts to 0; the modulus is one. */
  lemma WrapOfModulus(k: IntKind)
    requires k.Valid()
    ensures Wrap(k, Modulus(k)) == 0
  {
    ModAddMultiple(0, 1, Modulus(k));
    WrapCongruent(k, Modulus(k), 0);
    WrapOfInRange(k, 0);
  }

  /** The result type `trunc_square` evidently intends: one integer digit more
      for a signed root, which makes room for the square of its most negative
      value. */
  function ExactTruncSquareResult(k: FixedKind): (r: FixedKind)
    requires k.Valid()
    ensures r.Valid() && r.reprType == MakeUnsigned(k.reprType)
    ensures IntegerDigits(r) == 2 * IntegerDigits(k) + SignBit(k.reprType.signed)
  {
    MakeFixedFromRepr(MakeUnsigned(k.reprType), IntegerDigits(k) * 2 + SignBit(k.reprType.signed))
  }

  /** `trunc_square` with the corrected result type. */
  function ExactTruncSquare(x: Fixed): (r: Fixed)
    requires CanMultiply(x, x)
    ensures r.Valid() && r.kind == ExactTruncSquareResult(x.kind)
  {
    Multiply(ExactTruncSquareResult(x.kind), x, x)
  }

  /** With the corrected result type every root squares exactly: the square
      of the representation floored by 2^digits, with no wrap-around. */
  lemma ExactTruncSquareIsExact(x: Fixed)
    requires CanMultiply(x, x)
    ensures ExactTruncSquare(x).repr == (x.repr * x.repr) / Pow2(Digits(x.kind.reprType))
  {
    var k, t := x.kind, x.kind.reprType;
    var res, u := ExactTruncSquareResult(k), MakeUnsigned(t);
    var d := Digits(t);
    assert res.exponent == 2 * IntegerDigits(k) + SignBit(t.signed) - NumBits(t);
    MultiplyScales(res, x, x);
    MagnitudeBound(t, x.repr);
    RangeIsPow2(u);
    if t.signed {
      FlooredSquareAtMost(x.repr, d, d, d + 1);
    } else {
      FlooredSquareBelow(x.repr, d, d, d);
    }
    WrapOfInRange(u, (x.repr * x.repr) / Pow2(d));
  }

  /** The body of `promote_square` for an output kind of unsigned
      representation u: the root's representation is cast to u, squared in
      the type u promotes to, and the product shifted left by
      2 * exponent - output exponent into u. */
  function SquareInto(out: FixedKind, x: Fixed): (r: Fixed)
    requires out.Valid() && !out.reprType.signed && x.Valid()
    ensures r.Valid() && r.kind == out
  {
    var factor := Wrap(out.reprType, x.repr);
    var productType := Promoted(out.reprType);
    var product := Wrap(productType, factor * factor);
    FromData(out, ShiftLeft(x.kind.exponent * 2 - out.exponent, out.reprType, productType, product))
  }

  /** Whatever the widths, the result is the square of the representation
      scaled by 2^shift and reduced modulo 2^bits of the output: the casts
      and the product in the promoted type change nothing modulo that. */
  lemma SquareIntoWraps(out: FixedKind, x: Fixed)
    requires out.Valid() && !out.reprType.signed && x.Valid()
    requires x.kind.exponent * 2 - out.exponent >= 0
    ensures SquareInto(out, x).repr
      == Wrap(out.reprType, x.repr * x.repr * Pow2(x.kind.exponent * 2 - out.exponent))
  {
    var u, p := out.reprType, Promoted(out.reprType);
    var s := x.kind.exponent * 2 - out.exponent;
    var f := Wrap(u, x.repr);
    var product := Wrap(p, f * f);
    var square := x.repr * x.repr;
    assert product % Modulus(u) == square % Modulus(u) by {
      WrapResidue(u, x.repr);
      SquareCongruent(f, x.repr, Modulus(u));
      WrapThroughWider(u, p, f * f);
    }
    if s == 0 {
      assert square * Pow2(s) == square;
      WrapCongruent(u, product, square);
    } else {
      ShiftLeftMultiplies(s, u, p, product);
      WrapMul(u, product, square, Pow2(s));
    }
  }

  lemma SquareCongruent(f: int, x: int, m: int)
    requires m > 0 && f % m == x % m
    ensures (f * f) % m == (x * x) % m
  {
    ModMulCongruent(f, x, f, m);
    ModMulCongruent(f, x, x, m);
    assert x * f == f * x;
  }

  /** A square of magnitude at most 2^d, scaled by 2^s: at most 2^(2d + s),
      below it unless the magnitude is 2^d, and equal to it then. */
  lemma ScaledSquareBound(x: int, d: nat, s: nat)
    requires Abs(x) <= Pow2(d)
    ensures 0 <= x * x * Pow2(s) <= Pow2(d + d + s)
    ensures Abs(x) < Pow2(d) ==> x * x * Pow2(s) < Pow2(d + d + s)
    ensures Abs(x) == Pow2(d) ==> x * x * Pow2(s) == Pow2(d + d + s)
  {
    var q := Pow2(s);
    AbsMul(x, x);
    Pow2Add(d, d);
    Pow2Add(d + d, s);
    MulBound(Abs(x), Abs(x), Pow2(d), Pow2(d));
    MulOrder(x * x, Pow2(d + d), q);
    if Abs(x) < Pow2(d) {
      UnsignedProduct(Abs(x), Abs(x), Pow2(d), Pow2(d));
    }
    assert 0 <= x * x * q by {
      MulMonotone(q, 0, x * x);
    }
  }

  /** The shift `promote_square` applies: the bits of its output
      representation beyond twice the root's digits. It is 0 for an unsigned
      root and 2 for a signed one of the same width. */
  lemma PromoteSquareShift(x: Fixed)
    requires x.Valid() && x.kind.reprType.bytes <= 8
    requires 0 <= FractionalDigits(x.kind) <= FixedDigits(x.kind)
    ensures var out := PromoteSquareResult(x.kind);
      x.kind.exponent * 2 - out.exponent == NumBits(out.reprType) - 2 * Digits(x.kind.reprType) >= 0
  {
  }

  /** `promote_square(root)`: `SquareInto` the kind `promote_square_result`. */
  function PromoteSquare(x: Fixed): (r: Fixed)
    requires x.Valid() && x.kind.reprType.bytes <= 8
    requires 0 <= FractionalDigits(x.kind) <= FixedDigits(x.kind)
    ensures r.Valid() && r.kind == PromoteSquareResult(x.kind)
  {
    SquareInto(PromoteSquareResult(x.kind), x)
  }

  /** As written, `promote_square` of the most negative value of a signed
      type is zero: its square is 2^(2 integer digits), which the output
      type, of exactly 2 integer digits and no sign bit, cannot hold. */
  lemma PromoteSquareOfMinimumIsZero(x: Fixed)
    requires x.Valid() && x.kind.reprType.bytes <= 8
    requires 0 <= FractionalDigits(x.kind) <= FixedDigits(x.kind)
    requires x.kind.reprType.signed && x.repr == MinValue(x.kind.reprType)
    ensures PromoteSquare(x).repr == 0
  {
    var out, t := PromoteSquareResult(x.kind), x.kind.reprType;
    var d, n := Digits(t), NumBits(out.reprType);
    PromoteSquareShift(x);
    SquareIntoWraps(out, x);
    RangeIsPow2(t);
    RangeIsPow2(out.reprType);
    ScaledSquareBound(x.repr, d, n - 2 * d);
    WrapOfModulus(out.reprType);
  }

  /** Every other root squares exactly: the result represents x^2 with the
      representation x.repr^2 scaled to the output's exponent. */
  lemma PromoteSquareOtherwiseExact(x: Fixed)
    requires x.Valid() && x.kind.reprType.bytes <= 8
    requires 0 <= FractionalDigits(x.kind) <= FixedDigits(x.kind)
    requires x.kind.reprType.signed ==> x.repr > MinValue(x.kind.reprType)
    ensures var s := x.kind.exponent * 2 - PromoteSquareResult(x.kind).exponent;
      s >= 0 && PromoteSquare(x).repr == x.repr * x.repr * Pow2(s)
  {
    var out, t := PromoteSquareResult(x.kind), x.kind.reprType;
    PromoteSquareShift(x);
    var s: nat := NumBits(out.reprType) - 2 * Digits(t);
    ScaledSquareFits(t, out.reprType, x.repr, s, 0);
    SquareIntoExact(out, x);
  }

  /** When the scaled square fits the output, `SquareInto` is exact. */
  lemma SquareIntoExact(out: FixedKind, x: Fixed)
    requires out.Valid() && !out.reprType.signed && x.Valid()
    requires var s := x.kind.exponent * 2 - out.exponent;
      s >= 0 && 0 <= x.repr * x.repr * Pow2(s) < Modulus(out.reprType)
    ensures SquareInto(out, x).repr == x.repr * x.repr * Pow2(x.kind.exponent * 2 - out.exponent)
  {
    SquareIntoWraps(out, x);
    WrapOfInRange(out.reprType, x.repr * x.repr * Pow2(x.kind.exponent * 2 - out.exponent));
  }

  /** A value of kind t, squared and scaled by 2^s, fits an unsigned kind of
      2 * digits + s + extra bits: always when extra is 1, and for every value
      but the most negative one when extra is 0. */
  lemma ScaledSquareFits(t: IntKind, u: IntKind, x: int, s: nat, extra: nat)
    requires t.Valid() && u.Valid() && !u.signed && InRange(t, x)
    requires NumBits(u) == 2 * Digits(t) + s + extra
    requires extra == 0 ==> !t.signed || x > MinValue(t)
    ensures 0 <= x * x * Pow2(s) < Modulus(u)
  {
    var d, n := Digits(t), NumBits(u);
    MagnitudeBound(t, x);
    RangeIsPow2(t);
    RangeIsPow2(u);
    ScaledSquareBound(x, d, s);
    if extra > 0 {
      Pow2Monotone(d + d + s + 1, n);
      assert Pow2(d + d + s + 1) == 2 * Pow2(d + d + s);
    }
  }

  /** The result type `promote_square` evidently intends: `make_ufixed` with
      one integer digit more for a signed root. */
  function ExactPromoteSquareResult(k: FixedKind): (r: FixedKind)
    requires k.Valid() && k.reprType.bytes <= 8
    requires 0 <= FractionalDigits(k) <= FixedDigits(k)
    ensures r.Valid() && !r.reprType.signed
    ensures IntegerDigits(r) == 2 * IntegerDigits(k) + SignBit(k.reprType.signed)
    ensures FractionalDigits(r) >= 2 * FractionalDigits(k)
  {
    MakeUfixed(IntegerDigits(k) * 2 + SignBit(k.reprType.signed), FractionalDigits(k) * 2)
  }

  /** `promote_square` with the corrected result type. */
  function ExactPromoteSquare(x: Fixed): (r: Fixed)
    requires x.Valid() && x.kind.reprType.bytes <= 8
    requires 0 <= FractionalDigits(x.kind) <= FixedDigits(x.kind)
    ensures r.Valid() && r.kind == ExactPromoteSquareResult(x.kind)
  {
    SquareInto(ExactPromoteSquareResult(x.kind), x)
  }

  /** With the corrected result type every root squares exactly, the most
      negative one included. */
  lemma ExactPromoteSquareIsExact(x: Fixed)
    requires x.Valid() && x.kind.reprType.bytes <= 8
    requires 0 <= FractionalDigits(x.kind) <= FixedDigits(x.kind)
    ensures var s := x.kind.exponent * 2 - ExactPromoteSquareResult(x.kind).exponent;
      s >= 0 && ExactPromoteSquare(x).repr == x.repr * x.repr * Pow2(s)
  {
    var out, t := ExactPromoteSquareResult(x.kind), x.kind.reprType;
    var b := SignBit(t.signed);
    var s: nat := NumBits(out.reprType) - 2 * Digits(t) - b;
    assert s == x.kind.exponent * 2 - out.exponent;
    ScaledSquareFits(t, out.reprType, x.repr, s, b);
    SquareIntoExact(out, x);
  }
}
