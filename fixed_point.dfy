/** The `fixed_point<ReprType, Exponent>` class template. A type is a
    `FixedKind` (the representation kind and the exponent); a value is a
    `Fixed`, whose integer `repr` stands for repr * 2^exponent. The
    conversions and the operators on two values of one type live here. */
module FixedPoint {
  import opened Bits
  import opened IntKinds
  import opened Shifts

  /** A specialisation `fixed_point<reprType, exponent>`. */
  datatype FixedKind = FixedKind(reprType: IntKind, exponent: int) {
    predicate Valid() {
      reprType.Valid()
    }
  }

  /** `fixed_point::digits`: the bits of the representation less the sign bit. */
  function FixedDigits(k: FixedKind): nat
    requires k.Valid()
  {
    Digits(k.reprType)
  }

  /** `fixed_point::integer_digits`: digits + exponent. */
  function IntegerDigits(k: FixedKind): int
    requires k.Valid()
  {
    FixedDigits(k) + k.exponent
  }

  /** `fixed_point::fractional_digits`: digits - integer_digits, which is the
      number of bits below the binary point. */
  function FractionalDigits(k: FixedKind): (f: int)
    requires k.Valid()
    ensures f == -k.exponent
    ensures IntegerDigits(k) + f == FixedDigits(k)
  {
    FixedDigits(k) - IntegerDigits(k)
  }

  /** A value of a fixed-point type: its `_repr`. */
  datatype Fixed = Fixed(kind: FixedKind, repr: int) {
    predicate Valid() {
      kind.Valid() && InRange(kind.reprType, repr)
    }
  }

  /** `from_data(x)`: the private constructor storing x as the representation,
      after the implicit conversion of the argument to `repr_type`. */
  function FromData(k: FixedKind, x: int): (r: Fixed)
    requires k.Valid()
    ensures r.Valid() && r.kind == k
    ensures InRange(k.reprType, x) ==> r.repr == x
    ensures r.repr % Modulus(k.reprType) == x % Modulus(k.reprType)
  {
    WrapResidue(k.reprType, x);
    Fixed(k, Wrap(k.reprType, x))
  }

  /** The constructor from an integer v of kind s (`integral_to_repr`):
      `shift_right<exponent, repr_type>(v)`. */
  function FromInteger(k: FixedKind, s: IntKind, v: int): (r: Fixed)
    requires k.Valid() && s.Valid() && InRange(s, v)
    ensures r.Valid() && r.kind == k
  {
    Fixed(k, ShiftRight(k.exponent, k.reprType, s, v))
  }

  /** The conversion to an integer kind s (`repr_to_integral`):
      `shift_left<exponent, S>(repr)`. */
  function ToInteger(x: Fixed, s: IntKind): (v: int)
    requires x.Valid() && s.Valid()
    ensures InRange(s, v)
  {
    ShiftLeft(x.kind.exponent, s, x.kind.reprType, x.repr)
  }

  /** The converting constructor from another specialisation
      (`fixed_point_to_repr`): `shift_right<exponent - FromExponent, repr_type>`. */
  function ConvertFixed(k: FixedKind, x: Fixed): (r: Fixed)
    requires k.Valid() && x.Valid()
    ensures r.Valid() && r.kind == k
  {
    Fixed(k, ShiftRight(k.exponent - x.kind.exponent, k.reprType, x.kind.reprType, x.repr))
  }

  /** `explicit operator bool`: non-zeroness of the representation. */
  predicate ToBool(x: Fixed)
  {
    x.repr != 0
  }

  /** Zero converts to the zero representation at any exponent, so `bool(x)`
      is false exactly for the value constructed from the integer 0. */
  lemma ToBoolIsNonZero(x: Fixed, s: IntKind)
    requires x.Valid() && s.Valid()
    ensures FromInteger(x.kind, s, 0).repr == 0
    ensures ToBool(x) <==> x != FromInteger(x.kind, s, 0)
  {
    var k := x.kind;
    var e := k.exponent;
    if e > 0 {
      ShiftRightDivides(e, k.reprType, s, 0);
    } else if e < 0 {
      ShiftLeftMultiplies(-e, k.reprType, s, 0);
    }
  }

  /** The homogeneous comparison operators (`==`, `!=`, `<`, `>`, `<=`, `>=`)
      compare the representations. */
  predicate Less(a: Fixed, b: Fixed)
    requires a.kind == b.kind
  {
    a.repr < b.repr
  }

  predicate Equal(a: Fixed, b: Fixed)
    requires a.kind == b.kind
  {
    a.repr == b.repr
  }

  /** With exponent <= 0, an integer that fits after rescaling becomes the
      representation v * 2^-exponent. */
  lemma FromIntegerExact(k: FixedKind, s: IntKind, v: int)
    requires k.Valid() && s.Valid() && InRange(s, v) && k.exponent <= 0
    requires InRange(k.reprType, v * Pow2(-k.exponent))
    ensures FromInteger(k, s, v).repr == v * Pow2(-k.exponent)
  {
    var e := -k.exponent;
    ShiftFlip(e, k.reprType, s, v);
    ShiftLeftIsScaled(e, k.reprType, s, v);
    WrapOfInRange(k.reprType, v * Pow2(e));
  }

  /** Within one type `<` and `==` on values agree with `<` and `==` on the
      integers they are constructed from, when the constructions do not
      overflow. */
  lemma LessAgreesWithIntegers(k: FixedKind, s: IntKind, u: int, v: int)
    requires k.Valid() && s.Valid() && InRange(s, u) && InRange(s, v)
    requires k.exponent <= 0
    requires InRange(k.reprType, u * Pow2(-k.exponent))
    requires InRange(k.reprType, v * Pow2(-k.exponent))
    ensures Less(FromInteger(k, s, u), FromInteger(k, s, v)) <==> u < v
    ensures Equal(FromInteger(k, s, u), FromInteger(k, s, v)) <==> u == v
  {
    FromIntegerExact(k, s, u);
    FromIntegerExact(k, s, v);
    MulOrder(u, v, Pow2(-k.exponent));
  }

  /** Unary minus (`static_assert`ed signed): the representation is promoted,
      negated and converted back. */
  function Negate(x: Fixed): (r: Fixed)
    requires x.Valid() && x.kind.reprType.signed
    ensures r.Valid() && r.kind == x.kind
  {
    FromData(x.kind, Wrap(Promoted(x.kind.reprType), -x.repr))
  }

  /** Binary `+` on one type: the representations are added in the promoted
      type and the sum converted back to `repr_type`. */
  function Add(a: Fixed, b: Fixed): (r: Fixed)
    requires a.Valid() && b.Valid() && a.kind == b.kind
    ensures r.Valid() && r.kind == a.kind
  {
    FromData(a.kind, Wrap(Promoted(a.kind.reprType), a.repr + b.repr))
  }

  /** Binary `-` on one type. */
  function Sub(a: Fixed, b: Fixed): (r: Fixed)
    requires a.Valid() && b.Valid() && a.kind == b.kind
    ensures r.Valid() && r.kind == a.kind
  {
    FromData(a.kind, Wrap(Promoted(a.kind.reprType), a.repr - b.repr))
  }

  /** The promotion never matters: the operators compute modulo 2^bits. */
  lemma NegateWraps(x: Fixed)
    requires x.Valid() && x.kind.reprType.signed
    ensures Negate(x).repr == Wrap(x.kind.reprType, -x.repr)
  {
    WrapThroughWider(x.kind.reprType, Promoted(x.kind.reprType), -x.repr);
  }

  lemma AddWraps(a: Fixed, b: Fixed)
    requires a.Valid() && b.Valid() && a.kind == b.kind
    ensures Add(a, b).repr == Wrap(a.kind.reprType, a.repr + b.repr)
  {
    WrapThroughWider(a.kind.reprType, Promoted(a.kind.reprType), a.repr + b.repr);
  }

  lemma SubWraps(a: Fixed, b: Fixed)
    requires a.Valid() && b.Valid() && a.kind == b.kind
    ensures Sub(a, b).repr == Wrap(a.kind.reprType, a.repr - b.repr)
  {
    WrapThroughWider(a.kind.reprType, Promoted(a.kind.reprType), a.repr - b.repr);
  }

  /** Negation undoes itself, even for the most negative value (which it
      maps to itself). */
  lemma NegateInvolutive(x: Fixed)
    requires x.Valid() && x.kind.reprType.signed
    ensures Negate(Negate(x)) == x
  {
    NegateWraps(x);
    NegateWraps(Negate(x));
    WrapNegateTwice(x.kind.reprType, x.repr);
  }

  /** Subtracting what was added gives back the original value, whether or
      not the sum wrapped around; and the other way round. */
  lemma SubUndoesAdd(a: Fixed, b: Fixed)
    requires a.Valid() && b.Valid() && a.kind == b.kind
    ensures Sub(Add(a, b), b) == a
  {
    var k := a.kind.reprType;
    var y := Add(a, b).repr;
    assert y == Wrap(k, a.repr + b.repr) by {
      AddWraps(a, b);
    }
    assert Sub(Add(a, b), b).repr == Wrap(k, y - b.repr) by {
      SubWraps(Add(a, b), b);
    }
    assert Wrap(k, y - b.repr) == Wrap(k, a.repr) by {
      WrapResidue(k, a.repr + b.repr);
      WrapAdd(k, y, a.repr + b.repr, -b.repr);
      assert a.repr + b.repr + -b.repr == a.repr;
    }
    WrapOfInRange(k, a.repr);
  }

  lemma AddUndoesSub(a: Fixed, b: Fixed)
    requires a.Valid() && b.Valid() && a.kind == b.kind
    ensures Add(Sub(a, b), b) == a
  {
    var k := a.kind.reprType;
    var y := Sub(a, b).repr;
    assert y == Wrap(k, a.repr - b.repr) by {
      SubWraps(a, b);
    }
    assert Add(Sub(a, b), b).repr == Wrap(k, y + b.repr) by {
      AddWraps(Sub(a, b), b);
    }
    assert Wrap(k, y + b.repr) == Wrap(k, a.repr) by {
      WrapResidue(k, a.repr - b.repr);
      WrapAdd(k, y, a.repr - b.repr, b.repr);
      assert a.repr - b.repr + b.repr == a.repr;
    }
    WrapOfInRange(k, a.repr);
  }

  /** On a signed type `a - b` is `a + (-b)`. */
  lemma SubIsAddNegate(a: Fixed, b: Fixed)
    requires a.Valid() && b.Valid() && a.kind == b.kind && a.kind.reprType.signed
    ensures Sub(a, b) == Add(a, Negate(b))
  {
    var k := a.kind.reprType;
    SubWraps(a, b);
    NegateWraps(b);
    AddWraps(a, Negate(b));
    WrapResidue(k, -b.repr);
    WrapAdd(k, Wrap(k, -b.repr), -b.repr, a.repr);
    assert Wrap(k, -b.repr) + a.repr == a.repr + Negate(b).repr;
    assert -b.repr + a.repr == a.repr - b.repr;
  }

  /** Without overflow the operators are exact. */
  lemma AddExact(a: Fixed, b: Fixed)
    requires a.Valid() && b.Valid() && a.kind == b.kind
    requires InRange(a.kind.reprType, a.repr + b.repr)
    ensures Add(a, b).repr == a.repr + b.repr
  {
    AddWraps(a, b);
    WrapOfInRange(a.kind.reprType, a.repr + b.repr);
  }

  /** Converting to the type a value already has changes nothing. */
  lemma ConvertToSameKind(x: Fixed)
    requires x.Valid()
    ensures ConvertFixed(x.kind, x) == x
  {
    WrapOfInRange(x.kind.reprType, x.repr);
  }

  /** A conversion rescales the representation by the difference of the
      exponents: a left shift multiplies, a right shift floors. */
  lemma ConvertScales(k: FixedKind, x: Fixed)
    requires k.Valid() && x.Valid()
    requires KeepsSign(k.reprType, x.kind.reprType, x.repr)
    ensures ConvertFixed(k, x).repr == Scaled(x.kind.exponent - k.exponent, k.reprType, x.repr)
  {
    ShiftRightIsScaled(k.exponent - x.kind.exponent, k.reprType, x.kind.reprType, x.repr);
  }

  /** Converting to a type with at least as many fractional digits whose range
      holds the rescaled representation, and back again, is the identity. */
  lemma ConvertRoundTrip(k: FixedKind, x: Fixed)
    requires k.Valid() && x.Valid() && k.exponent <= x.kind.exponent
    requires InRange(k.reprType, x.repr * Pow2(x.kind.exponent - k.exponent))
    ensures ConvertFixed(k, x).repr == x.repr * Pow2(x.kind.exponent - k.exponent)
    ensures ConvertFixed(x.kind, ConvertFixed(k, x)) == x
  {
    var d := x.kind.exponent - k.exponent;
    var shifted := x.repr * Pow2(d);
    if !x.kind.reprType.signed {
      MulMonotone(Pow2(d), 0, x.repr);
    }
    assert KeepsSign(x.kind.reprType, k.reprType, shifted);
    ShiftFlip(d, k.reprType, x.kind.reprType, x.repr);
    ShiftRightUndoesShiftLeft(d, k.reprType, x.kind.reprType, x.repr);
    ShiftLeftIsScaled(d, k.reprType, x.kind.reprType, x.repr);
    WrapOfInRange(k.reprType, shifted);
  }

  /** An integer converted to a type with exponent <= 0 and back is unchanged
      when its rescaled representation fits. */
  lemma IntegerRoundTrip(k: FixedKind, s: IntKind, v: int)
    requires k.Valid() && s.Valid() && InRange(s, v) && k.exponent <= 0
    requires InRange(k.reprType, v * Pow2(-k.exponent))
    ensures FromInteger(k, s, v).repr == v * Pow2(-k.exponent)
    ensures ToInteger(FromInteger(k, s, v), s) == v
  {
    var e := -k.exponent;
    FromIntegerExact(k, s, v);
    if !s.signed {
      MulMonotone(Pow2(e), 0, v);
    }
    ShiftFlip(e, s, k.reprType, v * Pow2(e));
    ShiftRightUndoesShiftLeft(e, k.reprType, s, v);
  }

  /** A value of a type with exponent >= 0 converted to an integer kind that
      holds it and back is unchanged. */
  lemma ToIntegerRoundTrip(x: Fixed, s: IntKind)
    requires x.Valid() && s.Valid() && x.kind.exponent >= 0
    requires InRange(s, x.repr * Pow2(x.kind.exponent))
    ensures ToInteger(x, s) == x.repr * Pow2(x.kind.exponent)
    ensures FromInteger(x.kind, s, ToInteger(x, s)) == x
  {
    var k := x.kind;
    var e := k.exponent;
    var shifted := x.repr * Pow2(e);
    if !k.reprType.signed {
      MulMonotone(Pow2(e), 0, x.repr);
    }
    assert KeepsSign(k.reprType, s, shifted);
    ShiftLeftIsScaled(e, s, k.reprType, x.repr);
    WrapOfInRange(s, shifted);
    ShiftRightUndoesShiftLeft(e, s, k.reprType, x.repr);
  }
}
