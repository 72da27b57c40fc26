/** The digit-by-digit integer square root behind `sqrt`: `sqrt_bit` finds
    the highest power of four not above n, `sqrt_solve3` fixes one root bit
    per power of four, and `sqrt_solve1` starts it. The representation is
    never negative here; a negative n would make `sqrt_bit` recurse forever. */
module SquareRoot {
  import opened Bits
  import opened IntKinds

  /** 1, 4, 16, 64, ... */
  predicate IsPowerOfFour(b: int)
    decreases if b < 0 then 0 else b
  {
    b == 1 || (b >= 4 && b % 4 == 0 && IsPowerOfFour(b / 4))
  }

  lemma {:induction false} EvenPowerOfTwo(j: nat)
    ensures IsPowerOfFour(Pow2(2 * j))
  {
    if j > 0 {
      EvenPowerOfTwo(j - 1);
      var b := Pow2(2 * (j - 1));
      assert Pow2(2 * j) == 4 * b;
      assert (4 * b) / 4 == b;
    }
  }

  /** `sqrt_bit(n, bit)`: `bit` if it is not above n, otherwise retry with
      `bit >> 2`. */
  function SqrtBit(n: int, bit: nat): (r: nat)
    requires n >= 0
    ensures r <= bit
    decreases bit
  {
    if bit > n then SqrtBit(n, bit / 4) else bit
  }

  /** Started from a power of four above n / 4, `sqrt_bit` yields the largest
      power of four not above n, or 0 when n is 0. */
  lemma {:induction false} SqrtBitIsLargestPowerOfFour(n: int, bit: nat)
    requires n >= 0 && IsPowerOfFour(bit) && n < 4 * bit
    ensures var r := SqrtBit(n, bit);
      (n == 0 && r == 0) || (n > 0 && IsPowerOfFour(r) && r <= n < 4 * r)
  {
    if bit > n {
      if bit == 1 {
        assert n == 0 && SqrtBit(n, 0) == 0;
      } else {
        assert bit == 4 * (bit / 4);
        SqrtBitIsLargestPowerOfFour(n, bit / 4);
      }
    }
  }

  /** `sqrt_solve3(n, bit, result)`: while `bit` is not zero, subtract
      `result + bit` from n when it fits, and move on to the next bit. */
  function SqrtSolve3(n: int, bit: nat, result: int): (r: int)
    decreases bit
  {
    if bit != 0 then
      if n >= result + bit then
        SqrtSolve3(n - (result + bit), bit / 4, result / 2 + bit)
      else
        SqrtSolve3(n, bit / 4, result / 2)
    else
      result
  }

  /** `sqrt_solve1(n)`: `sqrt_solve3` from the default `sqrt_bit`, which starts
      at `1 << (num_bits - 2)` of the representation kind k. */
  function SqrtSolve1(k: IntKind, n: int): int
    requires k.Valid() && InRange(k, n) && n >= 0
  {
    SqrtSolve3(n, SqrtBit(n, Pow2(NumBits(k) - 2)), 0)
  }

  /** The scale of the partial root while `bit` is the current bit: the root
      found so far counts in units of sqrt(Scale(bit)). */
  function Scale(bit: nat): nat
  {
    if bit == 0 then 1 else 4 * bit
  }

  /** The invariant of `sqrt_solve3` with the partial root p:
      result = p * s, n = N - p^2 * s and p^2 * s <= N < (p + 1)^2 * s. When
      bit reaches 0, s = 1 and p is the root of N. */
  lemma {:induction false} SqrtSolve3IsRoot(bigN: int, n: int, bit: nat, result: int, p: nat)
    requires bit == 0 || IsPowerOfFour(bit)
    requires result == p * Scale(bit)
    requires n == bigN - p * p * Scale(bit) && n >= 0
    requires bigN < (p + 1) * (p + 1) * Scale(bit)
    ensures var r := SqrtSolve3(n, bit, result); r >= 0 && r * r <= bigN < (r + 1) * (r + 1)
    decreases bit
  {
    if bit != 0 {
      var next := bit / 4;
      NextBit(bit);
      HalfResult(p, bit);
      if n >= result + bit {
        RootStepTaken(bigN, n, bit, result, p);
        SqrtSolve3IsRoot(bigN, n - (result + bit), next, result / 2 + bit, 2 * p + 1);
      } else {
        RootStepSkipped(bigN, n, bit, result, p);
        SqrtSolve3IsRoot(bigN, n, next, result / 2, 2 * p);
      }
    }
  }

  lemma NextBit(bit: nat)
    requires IsPowerOfFour(bit)
    ensures bit / 4 == 0 || IsPowerOfFour(bit / 4)
    ensures Scale(bit) == 4 * bit && Scale(bit / 4) == bit
  {
    if bit != 1 {
      assert bit == 4 * (bit / 4);
    }
  }

  lemma HalfResult(p: nat, bit: nat)
    ensures (p * (4 * bit)) / 2 == 2 * p * bit
  {
    assert p * (4 * bit) == 2 * (2 * p * bit);
  }

  /** The arithmetic of one step that sets the current root bit. */
  lemma RootStepTaken(bigN: int, n: int, bit: nat, result: int, p: nat)
    requires bit >= 1 && result == p * (4 * bit) && n == bigN - p * p * (4 * bit)
    requires bigN < (p + 1) * (p + 1) * (4 * bit) && n >= result + bit
    ensures 2 * p * bit + bit == (2 * p + 1) * bit
    ensures n - (result + bit) == bigN - (2 * p + 1) * (2 * p + 1) * bit
    ensures bigN < (2 * p + 2) * (2 * p + 2) * bit
  {
    assert (2 * p + 1) * (2 * p + 1) * bit == p * p * (4 * bit) + p * (4 * bit) + bit;
    assert (2 * p + 2) * (2 * p + 2) * bit == (p + 1) * (p + 1) * (4 * bit);
  }

  /** The arithmetic of one step that leaves the current root bit clear. */
  lemma RootStepSkipped(bigN: int, n: int, bit: nat, result: int, p: nat)
    requires bit >= 1 && result == p * (4 * bit) && n == bigN - p * p * (4 * bit)
    requires n < result + bit
    ensures 2 * p * bit == (2 * p) * bit
    ensures n == bigN - (2 * p) * (2 * p) * bit
    ensures bigN < (2 * p + 1) * (2 * p + 1) * bit
  {
    assert (2 * p) * (2 * p) * bit == p * p * (4 * bit);
    assert (2 * p + 1) * (2 * p + 1) * bit == p * p * (4 * bit) + p * (4 * bit) + bit;
  }

  /** `sqrt_solve1` computes the integer square root of any value of its
      representation kind that is not negative. */
  lemma SqrtSolve1IsRoot(k: IntKind, n: int)
    requires k.Valid() && InRange(k, n) && n >= 0
    ensures var r := SqrtSolve1(k, n);
      r >= 0 && r * r <= n < (r + 1) * (r + 1)
  {
    var start := Pow2(NumBits(k) - 2);
    StartingBit(k, n);
    SqrtBitIsLargestPowerOfFour(n, start);
    var bit := SqrtBit(n, start);
    var s := Scale(bit);
    assert n < s && 0 * s == 0 && 0 * 0 * s == 0 && 1 * 1 * s == s;
    SqrtSolve3IsRoot(n, n, bit, 0, 0);
  }

  /** The default starting bit is a power of four above a quarter of any
      value of the kind. */
  lemma StartingBit(k: IntKind, n: int)
    requires k.Valid() && InRange(k, n)
    ensures IsPowerOfFour(Pow2(NumBits(k) - 2)) && n < 4 * Pow2(NumBits(k) - 2)
  {
    EvenPowerOfTwo(4 * k.bytes - 1);
    assert NumBits(k) - 2 == 2 * (4 * k.bytes - 1);
    MagnitudeBound(k, n);
    Pow2Monotone(Digits(k), NumBits(k));
    Pow2Add(2, NumBits(k) - 2);
    assert Pow2(2) == 4;
  }
}
