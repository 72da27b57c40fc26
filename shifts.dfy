/** `_impl::shift_left` and `_impl::shift_right`: every change of exponent in
    the library goes through these two. The overload chosen by the C++
    compiler from the exponent's sign, the relative sizes of the two types
    and the signedness of the input becomes a branch here. */
module Shifts {
  import opened Bits
  import opened IntKinds

  /** `shift_left<e, out>(i)` for an `i` of kind `inp`: i * 2^e as an `out`.
      Exponent 0 is a cast; a negative exponent is a right shift by -e. */
  function ShiftLeft(e: int, out: IntKind, inp: IntKind, i: int): (r: int)
    requires out.Valid() && inp.Valid() && InRange(inp, i)
    ensures InRange(out, r)
  {
    if e == 0 then Wrap(out, i)
    else if e < 0 then ShiftRightBy(-e, out, inp, i)
    else ShiftLeftBy(e, out, inp, i)
  }

  /** `shift_right<e, out>(i)` for an `i` of kind `inp`: i / 2^e as an `out`.
      Exponent 0 is a cast; a negative exponent is a left shift by -e. */
  function ShiftRight(e: int, out: IntKind, inp: IntKind, i: int): (r: int)
    requires out.Valid() && inp.Valid() && InRange(inp, i)
    ensures InRange(out, r)
  {
    if e == 0 then Wrap(out, i)
    else if e < 0 then ShiftLeftBy(-e, out, inp, i)
    else ShiftRightBy(e, out, inp, i)
  }

  /** The `shift_left` overloads for a positive exponent. A signed input is
      shifted as an unsigned magnitude into the signed output and the sign
      reapplied, so that no negative value is ever shifted left. */
  function ShiftLeftBy(e: int, out: IntKind, inp: IntKind, i: int): (r: int)
    requires e > 0 && out.Valid() && inp.Valid() && InRange(inp, i)
    ensures InRange(out, r)
  {
    if !inp.signed then
      ShiftLeftUnsigned(e, out, inp, i)
    else
      var unsignedInput, signedOutput := MakeUnsigned(inp), MakeSigned(out);
      if i >= 0 then
        Wrap(out, ShiftLeftUnsigned(e, signedOutput, unsignedInput, Wrap(unsignedInput, i)))
      else
        Wrap(out, -ShiftLeftUnsigned(e, signedOutput, unsignedInput, Wrap(unsignedInput, -i)))
  }

  /** The overload for an unsigned input: cast first, then shift in the
      output's width. */
  function ShiftLeftUnsigned(e: int, out: IntKind, inp: IntKind, i: int): (r: int)
    requires e > 0 && out.Valid() && inp.Valid() && !inp.signed && InRange(inp, i)
    ensures InRange(out, r)
  {
    Wrap(out, Wrap(out, i) * Pow2(e))
  }

  /** The `shift_right` overloads for a positive exponent; `>>` on a negative
      value is arithmetic, i.e. it floors. */
  function ShiftRightBy(e: int, out: IntKind, inp: IntKind, i: int): (r: int)
    requires e > 0 && out.Valid() && inp.Valid() && InRange(inp, i)
    ensures InRange(out, r)
  {
    if out.bytes <= inp.bytes then
      // narrowing: shift in the input's width, then cast
      Wrap(out, i / Pow2(e))
    else
      // widening: cast first, then shift in the output's width
      Wrap(out, Wrap(out, i) / Pow2(e))
  }

  /** What a rescale by 2^e means: multiply, or divide rounding toward
      negative infinity. */
  function Rescaled(e: int, x: int): int
  {
    if e >= 0 then x * Pow2(e) else x / Pow2(-e)
  }

  /** A rescale reduced into `out`. */
  function Scaled(e: int, out: IntKind, x: int): int
    requires out.Valid()
  {
    Wrap(out, Rescaled(e, x))
  }

  /** Widening a negative value into an unsigned kind before a right shift
      is the one case where the shift is not `Scaled`. */
  predicate KeepsSign(out: IntKind, inp: IntKind, i: int)
  {
    out.bytes <= inp.bytes || out.signed || i >= 0
  }

  /** For e > 0, `shift_left` yields i * 2^e reduced into `out`, whatever the
      kinds and the sign of i. */
  lemma ShiftLeftMultiplies(e: int, out: IntKind, inp: IntKind, i: int)
    requires out.Valid() && inp.Valid() && InRange(inp, i) && e > 0
    ensures ShiftLeftBy(e, out, inp, i) == Wrap(out, i * Pow2(e))
  {
    if !inp.signed {
      ShiftLeftUnsignedMultiplies(e, out, inp, i);
    } else if i >= 0 {
      ShiftLeftNonNegative(e, out, inp, i);
    } else {
      ShiftLeftNegative(e, out, inp, i);
    }
  }

  lemma ShiftLeftUnsignedMultiplies(e: int, out: IntKind, inp: IntKind, i: int)
    requires out.Valid() && inp.Valid() && InRange(inp, i) && e > 0 && !inp.signed
    ensures ShiftLeftUnsigned(e, out, inp, i) == Wrap(out, i * Pow2(e))
  {
    WrapResidue(out, i);
    WrapMul(out, Wrap(out, i), i, Pow2(e));
  }

  lemma ShiftLeftNonNegative(e: int, out: IntKind, inp: IntKind, i: int)
    requires out.Valid() && inp.Valid() && InRange(inp, i) && e > 0 && inp.signed && i >= 0
    ensures ShiftLeftBy(e, out, inp, i) == Wrap(out, i * Pow2(e))
  {
    var unsignedInput, signedOutput := MakeUnsigned(inp), MakeSigned(out);
    RangeInclusion(inp, unsignedInput, i);
    WrapOfInRange(unsignedInput, i);
    assert ShiftLeftBy(e, out, inp, i) == Wrap(out, ShiftLeftUnsigned(e, signedOutput, unsignedInput, i));
    ShiftLeftUnsignedMultiplies(e, signedOutput, unsignedInput, i);
    WrapThroughWider(out, signedOutput, i * Pow2(e));
  }

  lemma ShiftLeftNegative(e: int, out: IntKind, inp: IntKind, i: int)
    requires out.Valid() && inp.Valid() && InRange(inp, i) && e > 0 && inp.signed && i < 0
    ensures ShiftLeftBy(e, out, inp, i) == Wrap(out, i * Pow2(e))
  {
    var unsignedInput, signedOutput := MakeUnsigned(inp), MakeSigned(out);
    var product := (-i) * Pow2(e);
    MagnitudeFits(inp, i);
    assert ShiftLeftBy(e, out, inp, i)
      == Wrap(out, -ShiftLeftUnsigned(e, signedOutput, unsignedInput, -i));
    ShiftLeftUnsignedMultiplies(e, signedOutput, unsignedInput, -i);
    NegatedMagnitude(out, signedOutput, product);
    MulNegLeft(i, Pow2(e));
    assert -product == i * Pow2(e);
  }

  /** The magnitude of a negative value fits the unsigned kind of its size. */
  lemma MagnitudeFits(inp: IntKind, i: int)
    requires inp.Valid() && InRange(inp, i) && inp.signed && i < 0
    ensures InRange(MakeUnsigned(inp), -i) && Wrap(MakeUnsigned(inp), -i) == -i
  {
    WrapOfInRange(MakeUnsigned(inp), -i);
  }

  /** Reapplying the sign to the shifted magnitude gives the shifted value. */
  lemma NegatedMagnitude(out: IntKind, signedOutput: IntKind, x: int)
    requires out.Valid() && signedOutput.Valid() && signedOutput.bytes == out.bytes
    ensures Wrap(out, -Wrap(signedOutput, x)) == Wrap(out, -x)
  {
    WrapThroughWider(out, signedOutput, x);
    WrapNegate(out, Wrap(signedOutput, x), x);
  }

  /** For e > 0, `shift_right` floors i / 2^e, except when a negative value is
      widened into an unsigned kind. */
  lemma ShiftRightDivides(e: int, out: IntKind, inp: IntKind, i: int)
    requires out.Valid() && inp.Valid() && InRange(inp, i) && e > 0
    requires KeepsSign(out, inp, i)
    ensures ShiftRightBy(e, out, inp, i) == Wrap(out, i / Pow2(e))
  {
    if out.bytes > inp.bytes {
      RangeInclusion(inp, out, i);
      WrapOfInRange(out, i);
    }
  }

  /** The exception: the cast to the wider unsigned kind happens first, so the
      shift sees 2^bits + i rather than i. */
  lemma ShiftRightWidensNegativeFirst(e: int, out: IntKind, inp: IntKind, i: int)
    requires out.Valid() && inp.Valid() && InRange(inp, i) && e > 0
    requires !KeepsSign(out, inp, i)
    ensures ShiftRightBy(e, out, inp, i) == (Modulus(out) + i) / Pow2(e)
  {
    var m := Modulus(out);
    assert Wrap(out, i) == m + i by {
      WideNegativeResidue(out, inp, i);
      WrapUnique(out, m + i, i);
    }
    DivPreservesBounds(m + i, Pow2(e), 0, MaxValue(out));
    WrapOfInRange(out, (m + i) / Pow2(e));
  }

  lemma WideNegativeResidue(out: IntKind, inp: IntKind, i: int)
    requires out.Valid() && inp.Valid() && InRange(inp, i)
    requires out.bytes > inp.bytes && !out.signed && i < 0
    ensures InRange(out, Modulus(out) + i) && (Modulus(out) + i) % Modulus(out) == i % Modulus(out)
  {
    ModAddMultiple(i, 1, Modulus(out));
  }

  /** Every shift is the rescale it is named for: exponent 0 is a cast, a
      negative exponent shifts the other way, and a positive one multiplies
      (left) or floors (right). */
  lemma ShiftLeftIsScaled(e: int, out: IntKind, inp: IntKind, i: int)
    requires out.Valid() && inp.Valid() && InRange(inp, i)
    requires e >= 0 || KeepsSign(out, inp, i)
    ensures ShiftLeft(e, out, inp, i) == Scaled(e, out, i)
  {
    if e > 0 {
      ShiftLeftMultiplies(e, out, inp, i);
      assert ShiftLeft(e, out, inp, i) == ShiftLeftBy(e, out, inp, i);
    } else if e < 0 {
      ShiftRightDivides(-e, out, inp, i);
      assert ShiftLeft(e, out, inp, i) == ShiftRightBy(-e, out, inp, i);
    }
  }

  lemma ShiftRightIsScaled(e: int, out: IntKind, inp: IntKind, i: int)
    requires out.Valid() && inp.Valid() && InRange(inp, i)
    requires e <= 0 || KeepsSign(out, inp, i)
    ensures ShiftRight(e, out, inp, i) == Scaled(-e, out, i)
  {
    if e > 0 {
      ShiftRightDivides(e, out, inp, i);
      assert ShiftRight(e, out, inp, i) == ShiftRightBy(e, out, inp, i);
      assert Scaled(-e, out, i) == Wrap(out, i / Pow2(e));
    } else if e < 0 {
      ShiftLeftMultiplies(-e, out, inp, i);
      assert ShiftRight(e, out, inp, i) == ShiftLeftBy(-e, out, inp, i);
    }
  }

  /** A right shift undoes a left shift that lost no bits. */
  lemma ShiftRightUndoesShiftLeft(e: nat, out: IntKind, inp: IntKind, i: int)
    requires out.Valid() && inp.Valid() && InRange(inp, i)
    requires InRange(out, i * Pow2(e)) && KeepsSign(inp, out, i * Pow2(e))
    ensures ShiftRight(e, inp, out, ShiftLeft(e, out, inp, i)) == i
  {
    var shifted := i * Pow2(e);
    ShiftLeftIsScaled(e, out, inp, i);
    WrapOfInRange(out, shifted);
    assert ShiftLeft(e, out, inp, i) == shifted;
    ShiftRightIsScaled(e, inp, out, shifted);
    MulDivCancel(i, Pow2(e));
    WrapOfInRange(inp, i);
    if e == 0 {
      assert Pow2(0) == 1;
    }
  }

  /** A negative exponent turns either shift into the other one. */
  lemma ShiftFlip(e: int, out: IntKind, inp: IntKind, i: int)
    requires out.Valid() && inp.Valid() && InRange(inp, i)
    ensures ShiftRight(-e, out, inp, i) == ShiftLeft(e, out, inp, i)
    ensures ShiftLeft(-e, out, inp, i) == ShiftRight(e, out, inp, i)
  {
  }

  /** A rescale keeps a value of magnitude at most 2^n within 2^(n + e):
      a left shift scales the bound, a floored right shift shrinks it, and
      neither turns a value that is not negative into a negative one. */
  lemma RescaledWithin(q: int, n: nat, e: int, m: nat)
    requires -(Pow2(n) as int) <= q <= Pow2(n) && n + e <= m
    ensures -(Pow2(m) as int) <= Rescaled(e, q) <= Pow2(m)
    ensures q < Pow2(n) ==> Rescaled(e, q) < Pow2(m)
    ensures q >= 0 ==> Rescaled(e, q) >= 0
  {
    if e >= 0 {
      RescaledUpWithin(q, n, e, m);
    } else if n >= -e {
      RescaledDownWithin(q, n, -e, m);
    } else {
      RescaledBelowOne(q, n, -e);
    }
  }

  /** `RescaledWithin` for a left shift by e. */
  lemma RescaledUpWithin(q: int, n: nat, e: nat, m: nat)
    requires -(Pow2(n) as int) <= q <= Pow2(n) && n + e <= m
    ensures -(Pow2(m) as int) <= q * Pow2(e) <= Pow2(m)
    ensures q < Pow2(n) ==> q * Pow2(e) < Pow2(m)
    ensures q >= 0 ==> q * Pow2(e) >= 0
  {
    Pow2Add(n, e);
    Pow2Monotone(n + e, m);
    ScaledWithin(q, Pow2(n), Pow2(e));
  }

  /** `RescaledWithin` for a right shift by t <= n. */
  lemma RescaledDownWithin(q: int, n: nat, t: nat, m: nat)
    requires -(Pow2(n) as int) <= q <= Pow2(n) && t <= n && n - t <= m
    ensures -(Pow2(m) as int) <= q / Pow2(t) <= Pow2(m)
    ensures q < Pow2(n) ==> q / Pow2(t) < Pow2(m)
    ensures q >= 0 ==> q / Pow2(t) >= 0
  {
    var k: nat := n - t;
    Pow2Sum(k, t, n);
    Pow2Monotone(k, m);
    FlooredWithin(q, Pow2(k), Pow2(t));
  }

  /** `RescaledWithin` for a right shift by more than n: -1 or 0. */
  lemma RescaledBelowOne(q: int, n: nat, t: nat)
    requires -(Pow2(n) as int) <= q <= Pow2(n) && n < t
    ensures -1 <= q / Pow2(t) <= 0
    ensures q >= 0 ==> q / Pow2(t) == 0
  {
    assert Pow2(n + 1) == 2 * Pow2(n);
    Pow2Monotone(n + 1, t);
    FlooredBelowOne(q, Pow2(t));
  }

  lemma ScaledWithin(q: int, b: int, p: int)
    requires p > 0 && -b <= q <= b
    ensures -(b * p) <= q * p <= b * p
    ensures q < b ==> q * p < b * p
    ensures q >= 0 ==> q * p >= 0
  {
    MulOrder(q, b, p);
    MulOrder(-b, q, p);
    MulNegLeft(b, p);
    if q >= 0 {
      MulMonotone(p, 0, q);
    }
  }

  lemma FlooredWithin(q: int, b: int, p: int)
    requires p > 0 && b >= 0 && -(b * p) <= q <= b * p
    ensures -b <= q / p <= b
    ensures q < b * p ==> q / p < b
    ensures q >= 0 ==> q / p >= 0
  {
    MulNegLeft(b, p);
    DivMonotone(-b * p, q, p);
    DivMonotone(q, b * p, p);
    MulDivCancel(-b, p);
    MulDivCancel(b, p);
    DivBelow(q, p, b);
    if q >= 0 {
      DivPreservesBounds(q, p, 0, q);
    }
  }

  lemma FlooredBelowOne(q: int, p: int)
    requires p > 0 && -p < q < p
    ensures -1 <= q / p <= 0
    ensures q >= 0 ==> q / p == 0
  {
    DivBelow(q, p, 1);
    DivMonotone(-p, q, p);
    MulDivCancel(-1, p);
    if q >= 0 {
      DivPreservesBounds(q, p, 0, q);
    }
  }

  /** ±2^n rescaled by 2^s is ±2^d, d being n + s. */
  lemma RescaledPower(n: nat, s: int, d: nat)
    requires n + s == d
    ensures Rescaled(s, Pow2(n)) == Pow2(d)
    ensures Rescaled(s, -(Pow2(n) as int)) == -(Pow2(d) as int)
  {
    if s >= 0 {
      Pow2Sum(n, s, d);
      MulNegLeft(Pow2(n), Pow2(s));
    } else {
      var t: nat := -s;
      Pow2Sum(d, t, n);
      MulDivCancel(Pow2(d), Pow2(t));
      MulNegLeft(Pow2(d), Pow2(t));
      MulDivCancel(-(Pow2(d) as int), Pow2(t));
    }
  }
}
