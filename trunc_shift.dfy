/** `trunc_shift_left` and `trunc_shift_right`: multiplication and division
    by a power of two that move the binary point, not the bits. */
module TruncShift {
  import opened Bits
  import opened IntKinds
  import opened Shifts
  import opened FixedPoint

  /** `trunc_shift_left<n>(fp)`: the same representation at exponent + n. */
  function TruncShiftLeft(n: int, x: Fixed): (r: Fixed)
    requires x.Valid()
    ensures r.Valid() && r.kind == FixedKind(x.kind.reprType, x.kind.exponent + n)
  {
    FromData(FixedKind(x.kind.reprType, x.kind.exponent + n), x.repr)
  }

  /** `trunc_shift_right<n>(fp)`: the same representation at exponent - n. */
  function TruncShiftRight(n: int, x: Fixed): (r: Fixed)
    requires x.Valid()
    ensures r.Valid() && r.kind == FixedKind(x.kind.reprType, x.kind.exponent - n)
  {
    FromData(FixedKind(x.kind.reprType, x.kind.exponent - n), x.repr)
  }

  /** Neither shift touches the representation, so no bit is lost: a shift
      right undoes a shift left by the same amount and the other way round,
      and a shift left by n is a shift right by -n. */
  lemma TruncShiftsAreInverse(n: int, x: Fixed)
    requires x.Valid()
    ensures TruncShiftLeft(n, x).repr == x.repr && TruncShiftRight(n, x).repr == x.repr
    ensures TruncShiftRight(n, TruncShiftLeft(n, x)) == x
    ensures TruncShiftLeft(n, TruncShiftRight(n, x)) == x
    ensures TruncShiftLeft(n, x) == TruncShiftRight(-n, x)
  {
  }

  /** The shifted value is the value times 2^n: converted back to the type of
      x it is the representation rescaled by 2^n (floored for n < 0, reduced
      modulo 2^bits for n > 0), and exactly x.repr * 2^n when that fits. */
  lemma TruncShiftLeftScales(n: int, x: Fixed)
    requires x.Valid()
    ensures ConvertFixed(x.kind, TruncShiftLeft(n, x)).repr == Scaled(n, x.kind.reprType, x.repr)
    ensures n >= 0 && InRange(x.kind.reprType, x.repr * Pow2(n))
      ==> ConvertFixed(x.kind, TruncShiftLeft(n, x)).repr == x.repr * Pow2(n)
  {
    var y := TruncShiftLeft(n, x);
    ConvertScales(x.kind, y);
    if n >= 0 && InRange(x.kind.reprType, x.repr * Pow2(n)) {
      WrapOfInRange(x.kind.reprType, x.repr * Pow2(n));
    }
  }
}
