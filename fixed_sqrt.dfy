/** `sqrt` of a fixed-point value and `trunc_sqrt`, which converts that root
    to an unsigned type with about half the integer digits. */
module FixedSqrt {
  import opened Bits
  import opened IntKinds
  import opened FixedPoint
  import opened TypeResolution
  import opened Promotion
  import opened SquareRoot

  /** `sqrt(x)`: `sqrt_solve1` of the promoted representation, cast back to
      the representation of x. The promoted representation must not be
      negative, or `sqrt_bit` never stops. */
  function Sqrt(x: Fixed): (r: Fixed)
    requires x.Valid() && x.kind.reprType.bytes <= 8 && Promote(x).repr >= 0
    ensures r.Valid() && r.kind == x.kind
  {
    var p := Promote(x);
    FromData(x.kind, SqrtSolve1(p.kind.reprType, p.repr))
  }

  /** For a value that is not negative, of a type whose fractional digits lie
      between 0 and its digits, `sqrt` is the square root rounded down: the
      result r, read at the same exponent, satisfies r^2 <= x < (r + 1)^2,
      that is r * r <= x.repr * 2^fractional_digits < (r + 1) * (r + 1). */
  lemma SqrtIsRoot(x: Fixed)
    requires x.Valid() && x.kind.reprType.bytes <= 8 && x.repr >= 0
    requires 0 <= FractionalDigits(x.kind) <= FixedDigits(x.kind)
    ensures Promote(x).repr >= 0
    ensures var r := Sqrt(x).repr;
      0 <= r && r * r <= x.repr * Pow2(FractionalDigits(x.kind)) < (r + 1) * (r + 1)
  {
    var t, f, d := x.kind.reprType, FractionalDigits(x.kind), Digits(x.kind.reprType);
    PromoteIsLossless(x);
    var n := x.repr * Pow2(f);
    assert 0 <= n < Pow2(d + d) by {
      MagnitudeBound(t, x.repr);
      Pow2Monotone(f, d);
      MulMonotone(Pow2(f), 0, x.repr);
      MulOrder(x.repr, Pow2(d), Pow2(f));
      MulMonotone(Pow2(d), Pow2(f), Pow2(d));
      Pow2Add(d, d);
    }
    var p := Promote(x);
    var q := SqrtSolve1(p.kind.reprType, p.repr);
    SqrtSolve1IsRoot(p.kind.reprType, p.repr);
    assert InRange(t, q) by {
      RootBelow(q, n, d);
      RangeIsPow2(t);
    }
    assert Sqrt(x).repr == q;
  }

  /** A root whose square is below 2^(2d) is below 2^d. */
  lemma RootBelow(q: int, n: int, d: nat)
    requires 0 <= q && q * q <= n < Pow2(d + d)
    ensures q < Pow2(d)
  {
    Pow2Add(d, d);
    if q >= Pow2(d) {
      MulBound(Pow2(d), Pow2(d), q, q);
    }
  }

  /** `trunc_sqrt(square)`: `sqrt`, converted to `trunc_sqrt_result`. */
  function TruncSqrt(x: Fixed): (r: Fixed)
    requires x.Valid() && x.kind.reprType.bytes <= 8 && Promote(x).repr >= 0
    ensures r.Valid() && r.kind == TruncSqrtResult(x.kind)
  {
    ConvertFixed(TruncSqrtResult(x.kind), Sqrt(x))
  }

  /** The conversion in `trunc_sqrt` loses nothing: it shifts the root left by
      floor(integer_digits / 2) + sign bit, which the unsigned result holds,
      and converting back gives `sqrt` again. */
  lemma TruncSqrtIsLossless(x: Fixed)
    requires x.Valid() && x.kind.reprType.bytes <= 8 && x.repr >= 0
    requires 0 <= FractionalDigits(x.kind) <= FixedDigits(x.kind)
    ensures Promote(x).repr >= 0
    ensures x.kind.exponent - TruncSqrtResult(x.kind).exponent
      == IntegerDigits(x.kind) / 2 + SignBit(x.kind.reprType.signed)
    ensures TruncSqrt(x).repr == Sqrt(x).repr * Pow2(IntegerDigits(x.kind) / 2 + SignBit(x.kind.reprType.signed))
    ensures ConvertFixed(x.kind, TruncSqrt(x)) == Sqrt(x)
  {
    SqrtConverts(x);
  }

  /** The root `sqrt` returns shifts left into `trunc_sqrt_result` and
      converts back without loss. */
  lemma SqrtConverts(x: Fixed)
    requires x.Valid() && x.kind.reprType.bytes <= 8 && x.repr >= 0
    requires 0 <= FractionalDigits(x.kind) <= FixedDigits(x.kind)
    ensures Promote(x).repr >= 0
    ensures x.kind.exponent - TruncSqrtResult(x.kind).exponent
      == IntegerDigits(x.kind) / 2 + SignBit(x.kind.reprType.signed)
    ensures ConvertFixed(TruncSqrtResult(x.kind), Sqrt(x)).repr
      == Sqrt(x).repr * Pow2(IntegerDigits(x.kind) / 2 + SignBit(x.kind.reprType.signed))
    ensures ConvertFixed(x.kind, ConvertFixed(TruncSqrtResult(x.kind), Sqrt(x))) == Sqrt(x)
  {
    SqrtIsScaledRoot(x);
    RootConversion(x.kind, Sqrt(x), x.repr * Pow2(FractionalDigits(x.kind)));
  }

  /** `sqrt(x)` is a root of x.repr * 2^fractional_digits, which is below
      2^(digits + fractional_digits). */
  lemma SqrtIsScaledRoot(x: Fixed)
    requires x.Valid() && x.kind.reprType.bytes <= 8 && x.repr >= 0
    requires 0 <= FractionalDigits(x.kind) <= FixedDigits(x.kind)
    ensures Promote(x).repr >= 0
    ensures var root, n := Sqrt(x), x.repr * Pow2(FractionalDigits(x.kind));
      0 <= root.repr && root.repr * root.repr <= n
      && n < Pow2(FixedDigits(x.kind) + FractionalDigits(x.kind))
  {
    var f, d := FractionalDigits(x.kind), Digits(x.kind.reprType);
    SqrtIsRoot(x);
    MagnitudeBound(x.kind.reprType, x.repr);
    ScaledBelowPow2(x.repr, d, f);
  }

  lemma ScaledBelowPow2(x: int, d: nat, f: nat)
    requires x < Pow2(d)
    ensures x * Pow2(f) < Pow2(d + f)
  {
    MulOrder(x, Pow2(d), Pow2(f));
    Pow2Add(d, f);
  }

  /** A root r of some n below 2^(digits + fractional_digits) converts to
      `trunc_sqrt_result` and back without loss. */
  lemma RootConversion(k: FixedKind, root: Fixed, n: int)
    requires root.Valid() && root.kind == k && 0 <= FractionalDigits(k) <= FixedDigits(k)
    requires 0 <= root.repr && root.repr * root.repr <= n
    requires n < Pow2(FixedDigits(k) + FractionalDigits(k))
    ensures k.exponent - TruncSqrtResult(k).exponent == IntegerDigits(k) / 2 + SignBit(k.reprType.signed)
    ensures ConvertFixed(TruncSqrtResult(k), root).repr
      == root.repr * Pow2(IntegerDigits(k) / 2 + SignBit(k.reprType.signed))
    ensures ConvertFixed(k, ConvertFixed(TruncSqrtResult(k), root)) == root
  {
    var t := k.reprType;
    var out := TruncSqrtResult(k);
    var f, d, i, b := FractionalDigits(k), Digits(t), IntegerDigits(k), SignBit(t.signed);
    var h: nat := i / 2 + b;
    assert h == k.exponent - out.exponent;
    assert InRange(out.reprType, root.repr * Pow2(h)) by {
      ScaledRootFits(root.repr, n, d, f, i, b);
      RangeIsPow2(out.reprType);
    }
    ConvertRoundTrip(out, root);
  }

  /** The arithmetic of `TruncSqrtIsLossless`: with n < 2^(d + f) and
      r^2 <= n, r * 2^(i / 2 + b) is below 2^(d + b), since d + f = 2d - i. */
  lemma ScaledRootFits(r: int, n: int, d: nat, f: nat, i: nat, b: nat)
    requires 0 <= r && r * r <= n < Pow2(d + f) && i + f == d
    ensures 0 <= r * Pow2(i / 2 + b) < Pow2(d + b)
  {
    var h: nat := i / 2 + b;
    var y := r * Pow2(h);
    assert y * y == (r * r) * (Pow2(h) * Pow2(h));
    Pow2Add(h, h);
    Pow2Add(d + f, h + h);
    assert y * y < Pow2(d + f + h + h) by {
      MulOrder(r * r, Pow2(d + f), Pow2(h + h));
      MulMonotone(Pow2(h + h), 0, r * r);
    }
    Pow2Monotone(d + f + h + h, (d + b) + (d + b));
    RootBelow(y, y * y, d + b);
    MulMonotone(Pow2(h), 0, r);
  }
}
