/** `_impl::add`, `trunc_add` and `trunc_subtract`: sums and differences
    taken in a result type with enough extra integer digits that the exact
    result of the (floored) addends always fits. */
module Addition {
  import opened Bits
  import opened IntKinds
  import opened Shifts
  import opened FixedPoint
  import opened TypeResolution

  /** Every addend is a value of kind k: `_impl::add` static_asserts that
      each has the type FixedPoint. */
  predicate AllOfKind(xs: seq<Fixed>, k: FixedKind)
  {
    forall i :: 0 <= i < |xs| ==> xs[i].Valid() && xs[i].kind == k
  }

  /** `_impl::add<Result, FixedPoint>(head, tail...)`: every addend is cast
      to Result, and the sum of the tail is added to the cast of the head. */
  function AddAll(res: FixedKind, k: FixedKind, xs: seq<Fixed>): (r: Fixed)
    requires res.Valid() && |xs| >= 1 && AllOfKind(xs, k)
    ensures r.Valid() && r.kind == res
    decreases |xs|
  {
    if |xs| == 1 then ConvertFixed(res, xs[0])
    else Add(AddAll(res, k, xs[1..]), ConvertFixed(res, xs[0]))
  }

  /** The exact sum of the addends' representations once each is cast to
      `res`. */
  function CastSum(res: FixedKind, k: FixedKind, xs: seq<Fixed>): int
    requires res.Valid() && AllOfKind(xs, k)
  {
    if |xs| == 0 then 0 else CastSum(res, k, xs[1..]) + ConvertFixed(res, xs[0]).repr
  }

  /** The sum of the representations. */
  function RawSum(xs: seq<Fixed>): int
  {
    if |xs| == 0 then 0 else RawSum(xs[1..]) + xs[0].repr
  }

  /** The sum of the representations, each divided by p rounding down. */
  function FlooredSum(xs: seq<Fixed>, p: int): int
    requires p > 0
  {
    if |xs| == 0 then 0 else FlooredSum(xs[1..], p) + xs[0].repr / p
  }

  /** `_impl::add` is the exact sum of the cast addends reduced modulo
      2^bits of Result: the order of the additions does not matter. */
  lemma {:induction false} AddAllWraps(res: FixedKind, k: FixedKind, xs: seq<Fixed>)
    requires res.Valid() && |xs| >= 1 && AllOfKind(xs, k)
    ensures AddAll(res, k, xs).repr == Wrap(res.reprType, CastSum(res, k, xs))
    decreases |xs|
  {
    var head := ConvertFixed(res, xs[0]);
    if |xs| == 1 {
      assert CastSum(res, k, xs[1..]) == 0;
      WrapOfInRange(res.reprType, head.repr);
    } else {
      var rest := AddAll(res, k, xs[1..]);
      var restSum := CastSum(res, k, xs[1..]);
      AddAllWraps(res, k, xs[1..]);
      AddWraps(rest, head);
      WrapResidue(res.reprType, restSum);
      WrapAdd(res.reprType, rest.repr, restSum, head.repr);
    }
  }

  /** `trunc_add(addend1, addend_tail...)`: `_impl::add` into
      `trunc_add_result` for as many addends as there are. */
  function TruncAdd(xs: seq<Fixed>): (r: Fixed)
    requires 1 <= |xs| < 0x1_0000_0000 && AllOfKind(xs, xs[0].kind)
    ensures r.Valid() && r.kind == TruncAddResult(xs[0].kind, |xs|)
  {
    AddAll(TruncAddResult(xs[0].kind, |xs|), xs[0].kind, xs)
  }

  /** The result type of `trunc_add` keeps the representation and coarsens
      the exponent by capacity(n - 1) bits, so each addend is floored by
      2^capacity(n - 1) when cast to it. */
  lemma ConvertToTruncAddResult(k: FixedKind, n: nat, x: Fixed)
    requires x.Valid() && x.kind == k && 1 <= n < 0x1_0000_0000
    ensures TruncAddResult(k, n).exponent == k.exponent + Capacity(n - 1)
    ensures ConvertFixed(TruncAddResult(k, n), x).repr == x.repr / Pow2(Capacity(n - 1))
  {
    var res := TruncAddResult(k, n);
    var c := Capacity(n - 1);
    assert res.exponent == k.exponent + c;
    RangeIsPow2(k.reprType);
    if c > 0 {
      DivPreservesBounds(x.repr, Pow2(c), MinValue(k.reprType), MaxValue(k.reprType));
      WrapOfInRange(k.reprType, x.repr / Pow2(c));
    } else {
      WrapOfInRange(k.reprType, x.repr);
    }
  }

  lemma {:induction false} CastSumIsFloored(k: FixedKind, n: nat, xs: seq<Fixed>)
    requires k.Valid() && 1 <= n < 0x1_0000_0000 && AllOfKind(xs, k)
    ensures CastSum(TruncAddResult(k, n), k, xs) == FlooredSum(xs, Pow2(Capacity(n - 1)))
  {
    if |xs| > 0 {
      CastSumIsFloored(k, n, xs[1..]);
      ConvertToTruncAddResult(k, n, xs[0]);
    }
  }

  /** Flooring each addend loses less than one unit of p per addend. */
  lemma {:induction false} FlooredSumBracket(xs: seq<Fixed>, p: int)
    requires p > 0
    ensures p * FlooredSum(xs, p) <= RawSum(xs) <= p * FlooredSum(xs, p) + |xs| * (p - 1)
  {
    if |xs| > 0 {
      var rest, q := FlooredSum(xs[1..], p), xs[0].repr / p;
      FlooredSumBracket(xs[1..], p);
      DivRemainder(xs[0].repr, p);
      assert p * (rest + q) == p * rest + q * p;
      assert |xs| * (p - 1) == (|xs| - 1) * (p - 1) + (p - 1);
    }
  }

  /** n addends between lo and hi floor to a sum between n (lo / p) and
      n (hi / p). */
  lemma {:induction false} FlooredSumBounds(xs: seq<Fixed>, p: int, lo: int, hi: int)
    requires p > 0 && forall i :: 0 <= i < |xs| ==> lo <= xs[i].repr <= hi
    ensures |xs| * (lo / p) <= FlooredSum(xs, p) <= |xs| * (hi / p)
  {
    if |xs| > 0 {
      var m, a, b := |xs| - 1, lo / p, hi / p;
      var rest, q := FlooredSum(xs[1..], p), xs[0].repr / p;
      assert m * a <= rest <= m * b by {
        FlooredSumBounds(xs[1..], p, lo, hi);
      }
      assert a <= q <= b by {
        DivMonotone(lo, xs[0].repr, p);
        DivMonotone(xs[0].repr, hi, p);
      }
      BoundsAddUp(m, a, b, rest, q);
    }
  }

  /** Bounds of m terms and of one more add up to bounds of m + 1 terms. */
  lemma BoundsAddUp(m: int, a: int, b: int, rest: int, q: int)
    requires m * a <= rest <= m * b && a <= q <= b
    ensures (m + 1) * a <= rest + q <= (m + 1) * b
  {
    assert (m + 1) * a == m * a + a && (m + 1) * b == m * b + b;
  }

  /** At most p addends, each floored by p, sum to no more than the largest
      value m. */
  lemma UpperFloorBound(n: int, p: int, m: int)
    requires 1 <= n <= p && m >= 0
    ensures n * (m / p) <= m
  {
    DivRemainder(m, p);
    if m / p > 0 {
      MulMonotone(m / p, n, p);
    }
  }

  /** At most 2^digits addends, each floored by p = 2^c <= n, sum to no
      less than the smallest signed value -2^digits. */
  lemma LowerFloorBound(n: int, c: nat, d: nat)
    requires 1 <= n <= Pow2(d) && (n == 1 ==> c == 0) && (n > 1 ==> n <= Pow2(c) && Pow2(c - 1) <= n - 1)
    ensures n * (-(Pow2(d) as int) / Pow2(c)) >= -(Pow2(d) as int)
  {
    if c > d {
      Pow2Monotone(d, c - 1);
    }
    var q: int := Pow2(d - c);
    Pow2Add(d - c, c);
    MulNegLeft(q, Pow2(c));
    MulDivCancel(-q, Pow2(c));
    if n > 1 {
      MulMonotone(q, n, Pow2(c));
    }
  }

  /** The sum `trunc_add` computes never overflows: it is the exact sum of
      the addends each floored to the result's exponent, and so it lies at
      most one unit of the result per addend below the true sum. For a
      signed representation this needs no more addends than 2^digits;
      beyond that every negative addend floors to -1 and -n no longer fits. */
  lemma TruncAddIsExact(xs: seq<Fixed>)
    requires 1 <= |xs| < 0x1_0000_0000 && AllOfKind(xs, xs[0].kind)
    requires xs[0].kind.reprType.signed ==> |xs| <= Pow2(Digits(xs[0].kind.reprType))
    ensures var p := Pow2(Capacity(|xs| - 1));
      TruncAdd(xs).repr == FlooredSum(xs, p) &&
      p * TruncAdd(xs).repr <= RawSum(xs) <= p * TruncAdd(xs).repr + |xs| * (p - 1)
  {
    var p := Pow2(Capacity(|xs| - 1));
    TruncAddIsFlooredSum(xs);
    FlooredSumBracket(xs, p);
    BracketOfEqual(TruncAdd(xs).repr, FlooredSum(xs, p), RawSum(xs), p, |xs|);
  }

  /** A bracket p * f <= raw <= p * f + n * (p - 1) holds for any r equal to f. */
  lemma BracketOfEqual(r: int, f: int, raw: int, p: int, n: int)
    requires r == f && p * f <= raw <= p * f + n * (p - 1)
    ensures p * r <= raw <= p * r + n * (p - 1)
  {
  }

  /** `trunc_add` adds the floored addends without wrapping. */
  lemma TruncAddIsFlooredSum(xs: seq<Fixed>)
    requires 1 <= |xs| < 0x1_0000_0000 && AllOfKind(xs, xs[0].kind)
    requires xs[0].kind.reprType.signed ==> |xs| <= Pow2(Digits(xs[0].kind.reprType))
    ensures TruncAdd(xs).repr == FlooredSum(xs, Pow2(Capacity(|xs| - 1)))
  {
    var k, n := xs[0].kind, |xs|;
    var sum := FlooredSum(xs, Pow2(Capacity(n - 1)));
    assert TruncAdd(xs).repr == Wrap(k.reprType, sum) by {
      AddAllWraps(TruncAddResult(k, n), k, xs);
      CastSumIsFloored(k, n, xs);
    }
    FlooredSumFits(xs, k);
    WrapOfInRange(k.reprType, sum);
  }

  /** The floored sum behind `trunc_add` is a value of the addends' own
      representation. */
  lemma FlooredSumFits(xs: seq<Fixed>, k: FixedKind)
    requires 1 <= |xs| && AllOfKind(xs, k) && k.Valid()
    requires k.reprType.signed ==> |xs| <= Pow2(Digits(k.reprType))
    ensures InRange(k.reprType, FlooredSum(xs, Pow2(Capacity(|xs| - 1))))
  {
    var n, c := |xs|, Capacity(|xs| - 1);
    var p := Pow2(c);
    FlooredSumBounds(xs, p, MinValue(k.reprType), MaxValue(k.reprType));
    FloorsWithinKind(k.reprType, n, c);
  }

  /** n values of kind t, each floored by 2^c where c = capacity(n - 1),
      add up to at most n times the floored maximum and at least n times the
      floored minimum; both of those are values of t. */
  lemma FloorsWithinKind(t: IntKind, n: int, c: nat)
    requires t.Valid() && 1 <= n && c == Capacity(n - 1)
    requires t.signed ==> n <= Pow2(Digits(t))
    ensures n * (MaxValue(t) / Pow2(c)) <= MaxValue(t)
    ensures n * (MinValue(t) / Pow2(c)) >= MinValue(t)
  {
    var p := Pow2(c);
    assert n <= p && (n == 1 ==> c == 0) && (n > 1 ==> Pow2(c - 1) <= n - 1);
    assert n * (MaxValue(t) / p) <= MaxValue(t) by {
      RangeIsPow2(t);
      UpperFloorBound(n, p, MaxValue(t));
    }
    if t.signed {
      assert MinValue(t) == -(Pow2(Digits(t)) as int) by {
        RangeIsPow2(t);
      }
      LowerFloorBound(n, c, Digits(t));
    } else {
      assert MinValue(t) == 0 by {
        RangeIsPow2(t);
      }
      DivPreservesBounds(MinValue(t), p, 0, 0);
    }
  }

  /** `trunc_subtract(minuend, subtrahend)`: both cast to
      `trunc_subtract_result`, then subtracted. */
  function TruncSubtract(a: Fixed, b: Fixed): (r: Fixed)
    requires a.Valid() && b.Valid()
    ensures r.Valid() && r.kind == TruncSubtractResult(a.kind, b.kind)
  {
    var out := TruncSubtractResult(a.kind, b.kind);
    Sub(ConvertFixed(out, a), ConvertFixed(out, b))
  }

  /** Casting into a signed kind at least as wide, with more integer digits,
      is the rescale with no reduction, and lands in the lower half of the
      kind's range. */
  lemma ConvertIntoWider(k: FixedKind, x: Fixed)
    requires k.Valid() && x.Valid() && k.reprType.signed
    requires x.kind.reprType.bytes <= k.reprType.bytes
    requires IntegerDigits(x.kind) < IntegerDigits(k)
    ensures var r := ConvertFixed(k, x).repr;
      r == Rescaled(x.kind.exponent - k.exponent, x.repr) &&
      -(Pow2(Digits(k.reprType) - 1) as int) <= r < Pow2(Digits(k.reprType) - 1)
  {
    var s := x.kind.exponent - k.exponent;
    var dx, b := Digits(x.kind.reprType), Digits(k.reprType) - 1;
    var v := Rescaled(s, x.repr);
    ConvertScales(k, x);
    MagnitudeBound(x.kind.reprType, x.repr);
    if s >= 0 {
      Pow2Add(dx, s);
      Pow2Monotone(dx + s, b);
      ScaledBelow(x.repr, Pow2(dx), Pow2(s), Pow2(b));
    } else {
      RescaleDownBound(x.repr, dx, -s, b);
    }
    RangeIsPow2(k.reprType);
    assert Pow2(b + 1) == 2 * Pow2(b);
    WrapOfInRange(k.reprType, v);
  }

  /** Dividing a value of magnitude up to 2^d by 2^t, rounding down, leaves
      it within 2^b when d <= b + t. */
  lemma RescaleDownBound(x: int, d: nat, t: nat, b: nat)
    requires -(Pow2(d) as int) <= x < Pow2(d) && d <= b + t && t > 0
    ensures -(Pow2(b) as int) <= x / Pow2(t) < Pow2(b)
  {
    Pow2Add(b, t);
    Pow2Monotone(d, b + t);
    DivBelow(x, Pow2(t), Pow2(b));
    DivBelow(x, Pow2(t), -(Pow2(b) as int));
    MulNegLeft(Pow2(b), Pow2(t));
  }

  /** `trunc_subtract` never overflows: its result is the exact difference of
      the two operands rescaled (and floored where the result type is
      coarser) to the result's exponent. */
  lemma TruncSubtractIsExact(a: Fixed, b: Fixed)
    requires a.Valid() && b.Valid()
    ensures var out := TruncSubtractResult(a.kind, b.kind);
      TruncSubtract(a, b).repr
        == Rescaled(a.kind.exponent - out.exponent, a.repr) - Rescaled(b.kind.exponent - out.exponent, b.repr)
  {
    var out := TruncSubtractResult(a.kind, b.kind);
    var ca, cb := ConvertFixed(out, a), ConvertFixed(out, b);
    ConvertIntoWider(out, a);
    ConvertIntoWider(out, b);
    SubWraps(ca, cb);
    RangeIsPow2(out.reprType);
    assert Pow2(Digits(out.reprType)) == 2 * Pow2(Digits(out.reprType) - 1);
    WrapOfInRange(out.reprType, ca.repr - cb.repr);
  }
}
