/** A `fixed_point` object as the assignment operators see it: a variable of
    one fixed-point type whose `_repr` the copy assignments and the compound
    assignments overwrite. Each operator is the value-level operation of the
    other modules applied to the old value, stored back in place. */
module Assignment {
  import opened Bits
  import opened IntKinds
  import opened FixedPoint
  import opened TypeResolution
  import opened Multiplication
  import opened Division
  import opened Operators

  class FixedPointVariable {
    /** The specialisation: fixed for the lifetime of the object. */
    const kind: FixedKind
    /** `_repr`. */
    var repr: int

    ghost predicate Valid()
      reads this
    {
      kind.Valid() && InRange(kind.reprType, repr)
    }

    /** The value the object holds. */
    function Value(): (x: Fixed)
      reads this
      ensures x.kind == kind && x.repr == repr
      ensures Valid() ==> x.Valid()
    {
      Fixed(kind, repr)
    }

    /** The copy constructor. */
    constructor (x: Fixed)
      requires x.Valid()
      ensures Valid() && Value() == x
    {
      kind := x.kind;
      repr := x.repr;
    }

    /** `operator=(S s)` for an integer s: `integral_to_repr`. */
    method AssignInteger(s: IntKind, v: int)
      requires Valid() && s.Valid() && InRange(s, v)
      modifies this
      ensures Valid() && Value() == FromInteger(kind, s, v)
    {
      repr := FromInteger(kind, s, v).repr;
    }

    /** `operator=(const fixed_point<FromReprType, FromExponent> &)`:
        `fixed_point_to_repr`. Assigning a value of the object's own type
        stores that value. */
    method AssignFixed(x: Fixed)
      requires Valid() && x.Valid()
      modifies this
      ensures Valid() && Value() == ConvertFixed(kind, x)
      ensures x.kind == kind ==> Value() == x
    {
      ConvertToSameKind(x);
      repr := ConvertFixed(kind, x).repr;
    }

    /** Homogeneous `+=`: `lhs = lhs + rhs`. */
    method AddAssign(rhs: Fixed)
      requires Valid() && rhs.Valid() && rhs.kind == kind
      modifies this
      ensures Valid() && Value() == Add(old(Value()), rhs)
      ensures repr == Wrap(kind.reprType, old(repr) + rhs.repr)
    {
      AddWraps(Value(), rhs);
      repr := Add(Value(), rhs).repr;
    }

    /** Homogeneous `-=`: `lhs = lhs - rhs`. */
    method SubAssign(rhs: Fixed)
      requires Valid() && rhs.Valid() && rhs.kind == kind
      modifies this
      ensures Valid() && Value() == Sub(old(Value()), rhs)
      ensures repr == Wrap(kind.reprType, old(repr) - rhs.repr)
    {
      SubWraps(Value(), rhs);
      repr := Sub(Value(), rhs).repr;
    }

    /** Homogeneous `*=`: `lhs = lhs * rhs`, a `multiply` into the type both
        operands share. */
    method MultiplyAssign(rhs: Fixed)
      requires Valid() && rhs.Valid() && rhs.kind == kind && CanMultiply(Value(), rhs)
      modifies this
      ensures Valid() && Value() == FixedTimesFixed(old(Value()), rhs)
      ensures Value() == Multiply(kind, old(Value()), rhs)
    {
      CommonTypeSymmetric(kind, kind);
      repr := FixedTimesFixed(Value(), rhs).repr;
    }

    /** Homogeneous `/=`: `lhs = lhs / rhs`, a `divide` into the type both
        operands share. */
    method DivideAssign(rhs: Fixed)
      requires Valid() && rhs.Valid() && rhs.kind == kind && CanDivide(kind, Value(), rhs)
      modifies this
      ensures Valid() && Value() == FixedOverFixed(old(Value()), rhs)
      ensures Value() == Divide(kind, old(Value()), rhs)
    {
      CommonTypeSymmetric(kind, kind);
      repr := FixedOverFixed(Value(), rhs).repr;
    }

    /** Heterogeneous `+=`: the right operand is first converted to the
        object's type. */
    method AddAssignOperand(rhs: Operand)
      requires Valid() && rhs.Valid()
      modifies this
      ensures Valid() && Value() == Add(old(Value()), Cast(kind, rhs))
    {
      AddAssign(Cast(kind, rhs));
    }

    /** Heterogeneous `-=`: the right operand is first converted to the
        object's type. */
    method SubAssignOperand(rhs: Operand)
      requires Valid() && rhs.Valid()
      modifies this
      ensures Valid() && Value() == Sub(old(Value()), Cast(kind, rhs))
    {
      SubAssign(Cast(kind, rhs));
    }

    /** Member `*=` by an integer: the representation is multiplied by it,
        modulo 2^bits. */
    method ScaleAssign(s: IntKind, v: int)
      requires Valid() && s.Valid() && InRange(s, v)
      modifies this
      ensures Valid() && Value() == ScaleByInteger(old(Value()), s, v)
      ensures repr == Wrap(kind.reprType, old(repr) * v)
    {
      ScaleByIntegerWraps(Value(), s, v);
      repr := ScaleByInteger(Value(), s, v).repr;
    }

    /** Member `/=` by a non-zero integer: C++ division of the representation,
        rounding toward zero when the operands meet in a signed type. */
    method DivideAssignInteger(s: IntKind, v: int)
      requires Valid() && s.Valid() && InRange(s, v) && v != 0
      modifies this
      ensures Valid() && Value() == DivideByInteger(old(Value()), s, v)
      ensures UsualArithmetic(kind.reprType, s).signed
        ==> repr == Wrap(kind.reprType, TruncDiv(old(repr), v))
    {
      if UsualArithmetic(kind.reprType, s).signed {
        DivideByIntegerTruncates(Value(), s, v);
      }
      repr := DivideByInteger(Value(), s, v).repr;
    }
  }
}
