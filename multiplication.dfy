/** `_impl::multiply` and the operations built on it: both representations
    are widened to the next size of the common representation type,
    multiplied there, and the product rescaled into the result type. */
module Multiplication {
  import opened Bits
  import opened IntKinds
  import opened Shifts
  import opened FixedPoint
  import opened TypeResolution

  /** Multiplication needs the next size of the common representation type. */
  predicate CanMultiply(a: Fixed, b: Fixed)
  {
    a.Valid() && b.Valid() && a.kind.reprType.bytes <= 8 && b.kind.reprType.bytes <= 8
  }

  /** `intermediate_repr_type`: `next_size` of the common type's representation. */
  function Intermediate(a: FixedKind, b: FixedKind): (r: IntKind)
    requires a.Valid() && b.Valid() && a.reprType.bytes <= 8 && b.reprType.bytes <= 8
    ensures r.Valid() && Fits(a.reprType, r) && Fits(b.reprType, r)
  {
    NextSize(CommonType(a, b).reprType)
  }

  /** `multiply<Result>(lhs, rhs)`: the product of the widened representations
      (computed in the promoted intermediate type) shifted left by
      lhs.exponent + rhs.exponent - Result::exponent into Result's
      representation. */
  function Multiply(res: FixedKind, a: Fixed, b: Fixed): (r: Fixed)
    requires res.Valid() && CanMultiply(a, b)
    ensures r.Valid() && r.kind == res
  {
    var intermediate := Intermediate(a.kind, b.kind);
    var productType := Promoted(intermediate);
    var product := Wrap(productType, Wrap(intermediate, a.repr) * Wrap(intermediate, b.repr));
    FromData(res, ShiftLeft(a.kind.exponent + b.kind.exponent - res.exponent, res.reprType, productType, product))
  }

  /** The product of the two representations always fits the intermediate
      type, so the widening loses nothing and the product is exact. */
  lemma ProductFits(a: Fixed, b: Fixed)
    requires CanMultiply(a, b)
    ensures InRange(Intermediate(a.kind, b.kind), a.repr * b.repr)
    ensures var intermediate := Intermediate(a.kind, b.kind);
      Wrap(Promoted(intermediate), Wrap(intermediate, a.repr) * Wrap(intermediate, b.repr))
        == a.repr * b.repr
  {
    var ka, kb := a.kind.reprType, b.kind.reprType;
    var intermediate := Intermediate(a.kind, b.kind);
    var x, y := a.repr, b.repr;
    ProductBound(ka, kb, intermediate, x, y);
    RangeInclusion(ka, intermediate, x);
    RangeInclusion(kb, intermediate, y);
    WrapOfInRange(intermediate, x);
    WrapOfInRange(intermediate, y);
    RangeInclusion(intermediate, Promoted(intermediate), x * y);
    WrapOfInRange(Promoted(intermediate), x * y);
  }

  /** A kind with as many bits as two others together, signed if either is,
      holds every product of their values. */
  lemma ProductBound(ka: IntKind, kb: IntKind, ki: IntKind, x: int, y: int)
    requires ka.Valid() && kb.Valid() && ki.Valid() && InRange(ka, x) && InRange(kb, y)
    requires ki.signed == (ka.signed || kb.signed)
    requires NumBits(ki) >= NumBits(ka) + NumBits(kb)
    ensures InRange(ki, x * y)
  {
    var da, db, di := Digits(ka), Digits(kb), Digits(ki);
    MagnitudeBound(ka, x);
    MagnitudeBound(kb, y);
    RangeIsPow2(ki);
    if !ka.signed && !kb.signed {
      ProductOfPowers(da, db, di);
      UnsignedProduct(x, y, Pow2(da), Pow2(db));
    } else {
      if ka.signed && kb.signed {
        ProductOfPowers(da, db, di - 1);
        assert Pow2(di) == 2 * Pow2(di - 1);
      } else {
        ProductOfPowers(da, db, di);
      }
      MagnitudeProduct(x, y, Pow2(da), Pow2(db));
      if ka.signed && kb.signed {
        assert Abs(x * y) <= Pow2(di - 1);
      } else {
        OneSideStrict(x, y, Pow2(da), Pow2(db), ka.signed);
      }
    }
  }

  lemma ProductOfPowers(a: nat, b: nat, c: nat)
    requires a + b <= c
    ensures Pow2(a) * Pow2(b) <= Pow2(c)
  {
    Pow2Add(a, b);
    Pow2Monotone(a + b, c);
  }

  lemma UnsignedProduct(x: int, y: int, pa: int, pb: int)
    requires 0 <= x < pa && 0 <= y < pb
    ensures 0 <= x * y < pa * pb
  {
    MulBound(x, y, pa - 1, pb - 1);
    assert (pa - 1) * (pb - 1) == pa * pb - pa - pb + 1;
    if y > 0 {
      MulMonotone(y, 0, x);
    }
  }

  lemma MagnitudeProduct(x: int, y: int, pa: int, pb: int)
    requires Abs(x) <= pa && Abs(y) <= pb
    ensures Abs(x * y) <= pa * pb
  {
    AbsMul(x, y);
    MulBound(Abs(x), Abs(y), pa, pb);
  }

  /** With one factor strictly below its power of two, the product's
      magnitude is strictly below the product of the powers. */
  lemma OneSideStrict(x: int, y: int, pa: int, pb: int, firstSigned: bool)
    requires pa >= 1 && pb >= 1 && Abs(x) <= pa && Abs(y) <= pb
    requires if firstSigned then 0 <= y < pb else 0 <= x < pa
    ensures Abs(x * y) < pa * pb
  {
    AbsMul(x, y);
    if firstSigned {
      MulBound(Abs(x), Abs(y), pa, pb - 1);
      assert pa * (pb - 1) == pa * pb - pa;
    } else {
      MulBound(Abs(x), Abs(y), pa - 1, pb);
      assert (pa - 1) * pb == pa * pb - pb;
    }
  }

  /** The result is the exact product rescaled into the result type:
      multiplied by 2^shift when the shift is to the left, floored when it is
      to the right. */
  lemma MultiplyScales(res: FixedKind, a: Fixed, b: Fixed)
    requires res.Valid() && CanMultiply(a, b)
    requires var shift := a.kind.exponent + b.kind.exponent - res.exponent;
      shift >= 0 || KeepsSign(res.reprType, Promoted(Intermediate(a.kind, b.kind)), a.repr * b.repr)
    ensures Multiply(res, a, b).repr
      == Scaled(a.kind.exponent + b.kind.exponent - res.exponent, res.reprType, a.repr * b.repr)
  {
    var shift := a.kind.exponent + b.kind.exponent - res.exponent;
    var productType := Promoted(Intermediate(a.kind, b.kind));
    ProductFits(a, b);
    ShiftLeftIsScaled(shift, res.reprType, productType, a.repr * b.repr);
  }

  /** The operands of `multiply` can be swapped: the intermediate type is
      built from their common type, which is symmetric. */
  lemma MultiplyCommutes(res: FixedKind, a: Fixed, b: Fixed)
    requires res.Valid() && CanMultiply(a, b)
    ensures Multiply(res, a, b) == Multiply(res, b, a)
  {
    CommonTypeSymmetric(a.kind, b.kind);
    var i := Intermediate(a.kind, b.kind);
    assert Wrap(i, a.repr) * Wrap(i, b.repr) == Wrap(i, b.repr) * Wrap(i, a.repr);
  }

  /** `trunc_multiply(lhs, rhs)`: `multiply` into `trunc_multiply_result`. */
  function TruncMultiply(a: Fixed, b: Fixed): (r: Fixed)
    requires CanMultiply(a, b)
    ensures r.Valid() && r.kind == TruncMultiplyResult(a.kind, b.kind)
  {
    Multiply(TruncMultiplyResult(a.kind, b.kind), a, b)
  }

  /** `promote_multiply(lhs, rhs)`: `multiply` into `promote_multiply_result`. */
  function PromoteMultiply(a: Fixed, b: Fixed): (r: Fixed)
    requires CanMultiply(a, b)
    ensures r.Valid() && r.kind == PromoteMultiplyResult(a.kind, b.kind)
  {
    Multiply(PromoteMultiplyResult(a.kind, b.kind), a, b)
  }

  /** The product of two values is at most 2^(da + db) in magnitude, where da
      and db are their kinds' digits; it reaches 2^(da + db) only as the
      product of two minimums, and it is not negative when neither kind is
      signed. */
  lemma ProductWithin(ka: IntKind, kb: IntKind, x: int, y: int)
    requires ka.Valid() && kb.Valid() && InRange(ka, x) && InRange(kb, y)
    ensures -(Pow2(Digits(ka) + Digits(kb)) as int) <= x * y <= Pow2(Digits(ka) + Digits(kb))
    ensures !(ka.signed && kb.signed && x == MinValue(ka) && y == MinValue(kb))
      ==> x * y < Pow2(Digits(ka) + Digits(kb))
    ensures !ka.signed && !kb.signed ==> x * y >= 0
  {
    RangeIsPow2(ka);
    RangeIsPow2(kb);
    Pow2Add(Digits(ka), Digits(kb));
    ProductWithinPowers(x, y, Pow2(Digits(ka)), Pow2(Digits(kb)), ka.signed, kb.signed);
  }

  /** `ProductWithin` for factors in [-pa, pa) and [-pb, pb), or [0, pa) and
      [0, pb) when unsigned. */
  lemma ProductWithinPowers(x: int, y: int, pa: int, pb: int, sa: bool, sb: bool)
    requires pa >= 1 && pb >= 1
    requires (if sa then -pa else 0) <= x < pa && (if sb then -pb else 0) <= y < pb
    ensures -(pa * pb) <= x * y <= pa * pb
    ensures !(sa && sb && x == -pa && y == -pb) ==> x * y < pa * pb
    ensures !sa && !sb ==> x * y >= 0
  {
    if x >= 0 && y >= 0 {
      MulBound(x, y, pa - 1, pb - 1);
      assert (pa - 1) * (pb - 1) == pa * pb - pa - pb + 1;
      MulBound(0, 0, x, y);
    } else if x >= 0 {
      MulBound(x, -y, pa, pb);
      MulBound(0, 0, x, -y);
      assert x * y == -(x * -y);
    } else if y >= 0 {
      MulBound(-x, y, pa, pb);
      MulBound(0, 0, -x, y);
      assert x * y == -(-x * y);
    } else {
      assert x * y == (-x) * (-y);
      MulBound(-x, -y, pa, pb);
      MulBound(0, 0, -x, -y);
      if -x < pa {
        MulBound(-x, -y, pa - 1, pb);
        assert (pa - 1) * pb == pa * pb - pb;
      } else if -y < pb {
        MulBound(-x, -y, pa, pb - 1);
        assert pa * (pb - 1) == pa * pb - pa;
      }
    }
  }

  /** `multiply` into a type no wider than the intermediate one, of a product
      whose rescale fits that type, does not wrap. */
  lemma MultiplyWithoutWrap(res: FixedKind, a: Fixed, b: Fixed)
    requires res.Valid() && CanMultiply(a, b)
    requires res.reprType.bytes <= Intermediate(a.kind, b.kind).bytes
    requires InRange(res.reprType, Rescaled(a.kind.exponent + b.kind.exponent - res.exponent, a.repr * b.repr))
    ensures Multiply(res, a, b).repr == Rescaled(a.kind.exponent + b.kind.exponent - res.exponent, a.repr * b.repr)
  {
    MultiplyScales(res, a, b);
    WrapOfInRange(res.reprType, Rescaled(a.kind.exponent + b.kind.exponent - res.exponent, a.repr * b.repr));
  }

  /** The shift `trunc_multiply` and its corrected version apply: the result's
      digits less the operands' digits, less one more when `extra` is 1. */
  lemma TruncMultiplyShift(a: FixedKind, b: FixedKind, res: FixedKind, extra: nat)
    requires a.Valid() && b.Valid() && res.Valid()
    requires res.reprType == CommonType(a, b).reprType
    requires IntegerDigits(res) == IntegerDigits(a) + IntegerDigits(b) + extra
    ensures var t := Digits(a.reprType) + Digits(b.reprType) + extra - Digits(res.reprType);
      t > 0 && a.exponent + b.exponent - res.exponent == -t
  {
  }

  /** Except for the product of two minimums, `trunc_multiply` never wraps:
      its result is the product of the representations floored by
      2^(lhs digits + rhs digits - result digits). */
  lemma TruncMultiplyOtherwiseExact(a: Fixed, b: Fixed)
    requires CanMultiply(a, b)
    requires !(a.kind.reprType.signed && b.kind.reprType.signed
      && a.repr == MinValue(a.kind.reprType) && b.repr == MinValue(b.kind.reprType))
    ensures var t := Digits(a.kind.reprType) + Digits(b.kind.reprType)
        - Digits(TruncMultiplyResult(a.kind, b.kind).reprType);
      t > 0 && TruncMultiply(a, b).repr == (a.repr * b.repr) / Pow2(t)
  {
    var res := TruncMultiplyResult(a.kind, b.kind);
    TruncMultiplyShift(a.kind, b.kind, res, 0);
    var t: int := Digits(a.kind.reprType) + Digits(b.kind.reprType) - Digits(res.reprType);
    FlooredProductFits(a.kind.reprType, b.kind.reprType, res.reprType, a.repr, b.repr, t, 0);
    MultiplyWithoutWrap(res, a, b);
  }

  /** A product floored by 2^t fits a kind signed when either factor's kind
      is, with t = da + db + extra - digits: with extra 0 unless the factors
      are two minimums, with extra 1 always. */
  lemma FlooredProductFits(ka: IntKind, kb: IntKind, r: IntKind, x: int, y: int, t: int, extra: nat)
    requires ka.Valid() && kb.Valid() && r.Valid() && InRange(ka, x) && InRange(kb, y)
    requires r.signed == (ka.signed || kb.signed) && t > 0
    requires t == Digits(ka) + Digits(kb) + extra - Digits(r)
    requires extra == 0 ==> !(ka.signed && kb.signed && x == MinValue(ka) && y == MinValue(kb))
    requires extra == 1 ==> ka.signed && kb.signed
    requires extra <= 1
    ensures InRange(r, Rescaled(-t, x * y))
  {
    var n, d := Digits(ka) + Digits(kb), Digits(r);
    ProductWithin(ka, kb, x, y);
    RangeIsPow2(r);
    if extra == 1 {
      RescaledWithin(x * y, n, -t, d - 1);
      assert Pow2(d) == 2 * Pow2(d - 1) by {
        Pow2Add(d - 1, 1);
      }
    } else {
      RescaledWithin(x * y, n, -t, d);
    }
  }

  /** As written, `trunc_multiply` of two minimums wraps: their product,
      floored, is 2^digits of the result type, one more than its maximum, and
      comes out as the result type's minimum, a negative value. */
  lemma TruncMultiplyOfMinimumsWraps(a: Fixed, b: Fixed)
    requires CanMultiply(a, b) && a.kind.reprType.signed && b.kind.reprType.signed
    requires a.repr == MinValue(a.kind.reprType) && b.repr == MinValue(b.kind.reprType)
    ensures TruncMultiply(a, b).repr == MinValue(TruncMultiplyResult(a.kind, b.kind).reprType) < 0
  {
    var res := TruncMultiplyResult(a.kind, b.kind);
    var n: nat := Digits(a.kind.reprType) + Digits(b.kind.reprType);
    var d: nat := Digits(res.reprType);
    TruncMultiplyShift(a.kind, b.kind, res, 0);
    ProductOfMinimums(a.kind.reprType, b.kind.reprType);
    FlooredPower(n, d);
    MultiplyScales(res, a, b);
    WrapOfDigitsPower(res.reprType);
  }

  /** The product of two signed minimums is 2^(da + db). */
  lemma ProductOfMinimums(ka: IntKind, kb: IntKind)
    requires ka.Valid() && kb.Valid() && ka.signed && kb.signed
    ensures MinValue(ka) * MinValue(kb) == Pow2(Digits(ka) + Digits(kb))
  {
    RangeIsPow2(ka);
    RangeIsPow2(kb);
    Pow2Add(Digits(ka), Digits(kb));
  }

  /** 2^n floored by 2^(n - d) is 2^d. */
  lemma FlooredPower(n: nat, d: nat)
    requires d < n
    ensures Rescaled(d - n, Pow2(n)) == Pow2(d)
  {
    Pow2Add(d, n - d);
    MulDivCancel(Pow2(d), Pow2(n - d));
  }

  /** The corrected `trunc_multiply_result`: one more integer digit when both
      operands are signed, which holds the product of two minimums. */
  function ExactTruncMultiplyResult(a: FixedKind, b: FixedKind): (r: FixedKind)
    requires a.Valid() && b.Valid()
    ensures r.Valid() && r.reprType == TruncMultiplyResult(a, b).reprType
    ensures IntegerDigits(r)
      == IntegerDigits(a) + IntegerDigits(b) + SignBit(a.reprType.signed && b.reprType.signed)
  {
    MakeFixedFromRepr(CommonReprType([a.reprType, b.reprType]),
      IntegerDigits(a) + IntegerDigits(b) + SignBit(a.reprType.signed && b.reprType.signed))
  }

  /** `trunc_multiply` into the corrected result type. */
  function ExactTruncMultiply(a: Fixed, b: Fixed): (r: Fixed)
    requires CanMultiply(a, b)
    ensures r.Valid() && r.kind == ExactTruncMultiplyResult(a.kind, b.kind)
  {
    Multiply(ExactTruncMultiplyResult(a.kind, b.kind), a, b)
  }

  /** With the corrected result type every product is the product of the
      representations floored by 2^(lhs digits + rhs digits + sign bit - result
      digits), the product of two minimums included. */
  lemma ExactTruncMultiplyIsExact(a: Fixed, b: Fixed)
    requires CanMultiply(a, b)
    ensures var both := a.kind.reprType.signed && b.kind.reprType.signed;
      var t := Digits(a.kind.reprType) + Digits(b.kind.reprType) + SignBit(both)
        - Digits(ExactTruncMultiplyResult(a.kind, b.kind).reprType);
      t > 0 && ExactTruncMultiply(a, b).repr == (a.repr * b.repr) / Pow2(t)
  {
    var both := a.kind.reprType.signed && b.kind.reprType.signed;
    var res := ExactTruncMultiplyResult(a.kind, b.kind);
    TruncMultiplyShift(a.kind, b.kind, res, SignBit(both));
    var t: int := Digits(a.kind.reprType) + Digits(b.kind.reprType) + SignBit(both) - Digits(res.reprType);
    FlooredProductFits(a.kind.reprType, b.kind.reprType, res.reprType, a.repr, b.repr, t, SignBit(both));
    MultiplyWithoutWrap(res, a, b);
  }

  /** The product of the representations, rescaled to `promote_multiply`'s
      exponent, fits its result type, which has twice the common type's bits. */
  lemma PromoteProductFits(a: Fixed, b: Fixed)
    requires CanMultiply(a, b)
    ensures var res := PromoteMultiplyResult(a.kind, b.kind);
      InRange(res.reprType, Rescaled(a.kind.exponent + b.kind.exponent - res.exponent, a.repr * b.repr))
  {
    var c := CommonType(a.kind, b.kind);
    var res := PromoteMultiplyResult(a.kind, b.kind);
    var da, db, dc := Digits(a.kind.reprType), Digits(b.kind.reprType), Digits(c.reprType);
    var s := a.kind.exponent + b.kind.exponent - res.exponent;
    var p := a.repr * b.repr;
    assert res.reprType == NextSize(c.reprType);
    assert da + db + s <= 2 * dc;
    ProductWithin(a.kind.reprType, b.kind.reprType, a.repr, b.repr);
    RescaledWithin(p, da + db, s, 2 * dc);
    RangeIsPow2(res.reprType);
    if c.reprType.signed {
      Pow2Monotone(2 * dc, Digits(res.reprType));
    }
  }

  /** `promote_multiply` never wraps: the result type has twice the common
      type's bits, enough for every product, so the result is the product of
      the representations rescaled to the result's exponent, and exactly that
      product for operands of one type. */
  lemma PromoteMultiplyIsExact(a: Fixed, b: Fixed)
    requires CanMultiply(a, b)
    ensures var s := a.kind.exponent + b.kind.exponent - PromoteMultiplyResult(a.kind, b.kind).exponent;
      PromoteMultiply(a, b).repr == Rescaled(s, a.repr * b.repr)
    ensures a.kind == b.kind ==> PromoteMultiply(a, b).repr == a.repr * b.repr
  {
    var res := PromoteMultiplyResult(a.kind, b.kind);
    PromoteProductFits(a, b);
    MultiplyWithoutWrap(res, a, b);
    if a.kind == b.kind {
      CommonTypeSymmetric(a.kind, a.kind);
      assert a.kind.exponent + b.kind.exponent - res.exponent == 0 && Pow2(0) == 1;
    }
  }
}
