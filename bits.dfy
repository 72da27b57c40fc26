/** Plain integer arithmetic that the fixed-point model is stated in:
    powers of two, the C++ truncating division, and facts about
    Dafny's (Euclidean) remainder that the wrap-around proofs need. */
module Bits {

  /** 2^n. */
  function Pow2(n: nat): (r: nat)
    ensures r >= 1
  {
    if n == 0 then 1 else 2 * Pow2(n - 1)
  }

  lemma {:induction false} Pow2Add(a: nat, b: nat)
    ensures Pow2(a + b) == Pow2(a) * Pow2(b)
  {
    if a > 0 {
      Pow2Add(a - 1, b);
      calc {
        Pow2(a + b);
        2 * Pow2(a - 1 + b);
        2 * (Pow2(a - 1) * Pow2(b));
        (2 * Pow2(a - 1)) * Pow2(b);
      }
    }
  }

  /** 2^n splits at any d up to n. */
  lemma Pow2Split(n: nat, d: nat)
    requires d <= n
    ensures Pow2(n) == Pow2(d) * Pow2(n - d)
  {
    Pow2Add(d, n - d);
  }

  /** `Pow2Add` with the sum named. */
  lemma Pow2Sum(a: nat, b: nat, n: nat)
    requires n == a + b
    ensures Pow2(a) * Pow2(b) == Pow2(n)
  {
    Pow2Add(a, b);
  }

  lemma {:induction false} Pow2Monotone(a: nat, b: nat)
    requires a <= b
    ensures Pow2(a) <= Pow2(b)
  {
    if a < b {
      Pow2Monotone(a, b - 1);
    }
  }

  /** 2^n at the widths of the built-in integer types. */
  lemma Pow2Of8()
    ensures Pow2(8) == 0x100 && Pow2(7) == 0x80
  {
    assert Pow2(4) == 16;
    Pow2Add(4, 4);
  }

  lemma Pow2Of16()
    ensures Pow2(16) == 0x1_0000 && Pow2(15) == 0x8000
  {
    Pow2Of8();
    Pow2Add(8, 8);
  }

  lemma Pow2Of32()
    ensures Pow2(32) == 0x1_0000_0000 && Pow2(31) == 0x8000_0000
  {
    Pow2Of16();
    Pow2Add(16, 16);
  }

  lemma Pow2Of64()
    ensures Pow2(64) == 0x1_0000_0000_0000_0000 && Pow2(63) == 0x8000_0000_0000_0000
  {
    Pow2Of32();
    Pow2Add(32, 32);
  }

  lemma Pow2Of128()
    ensures Pow2(128) == 0x1_0000_0000_0000_0000_0000_0000_0000_0000
    ensures Pow2(127) == 0x8000_0000_0000_0000_0000_0000_0000_0000
  {
    Pow2Of64();
    Pow2Add(64, 64);
  }

  /** `_impl::max`: `(a < b) ? b : a`. */
  function Max(a: int, b: int): (r: int)
    ensures r >= a && r >= b && (r == a || r == b)
  {
    if a < b then b else a
  }

  function Abs(x: int): nat
  {
    if x < 0 then -x else x
  }

  /** The built-in C++ `/` on integers: the quotient of the magnitudes,
      negated when the signs differ, so truncated toward zero. */
  function TruncDiv(a: int, b: int): int
    requires b != 0
  {
    if (a < 0) == (b < 0) then Abs(a) / Abs(b) else -(Abs(a) / Abs(b))
  }

  /** `TruncDiv` leaves a remainder smaller than the divisor that takes the
      sign of the dividend. */
  lemma TruncDivRemainder(a: int, b: int)
    requires b != 0
    ensures Abs(a - TruncDiv(a, b) * b) < Abs(b)
    ensures a - TruncDiv(a, b) * b == 0 || (a - TruncDiv(a, b) * b < 0 <==> a < 0)
  {
    var m := Abs(a) / Abs(b);
    DivBounds(Abs(a), Abs(b));
    if (a < 0) == (b < 0) {
      assert m * b == (if b < 0 then -(m * Abs(b)) else m * Abs(b));
    } else {
      assert -m * b == (if b < 0 then m * Abs(b) else -(m * Abs(b)));
    }
  }

  /** An exact quotient is not truncated. */
  lemma TruncDivExact(q: int, d: int)
    requires d != 0
    ensures TruncDiv(q * d, d) == q
  {
    AbsMul(q, d);
    MulDivCancel(Abs(q), Abs(d));
    if q > 0 {
      MulSign(q, d);
    } else if q < 0 {
      MulSign(-q, d);
      MulNegLeft(q, d);
    }
  }

  lemma AbsMul(a: int, b: int)
    ensures Abs(a * b) == Abs(a) * Abs(b)
  {
    if a < 0 {
      MulNegLeft(a, b);
    }
    if b < 0 {
      assert a * b == -(a * -b);
    }
  }

  lemma MulSign(a: int, b: int)
    requires a > 0
    ensures b > 0 ==> a * b > 0
    ensures b < 0 ==> a * b < 0
  {
  }

  lemma DivBounds(x: nat, d: nat)
    requires d > 0
    ensures 0 <= x - (x / d) * d < d
  {
  }

  /** Adding a multiple of m does not change the remainder modulo m. */
  lemma ModAddMultiple(x: int, q: int, m: int)
    requires m > 0
    ensures (x + q * m) % m == x % m
  {
    var a := x + q * m;
    var t := x / m + q - a / m;
    assert a % m - x % m == m * t by {
      assert a == m * (a / m) + a % m;
      assert x == m * (x / m) + x % m;
    }
  }

  lemma ModOfSmall(x: int, m: int)
    requires 0 <= x < m
    ensures x % m == x
  {
    assert x == m * (x / m) + x % m;
  }

  /** Reducing modulo a multiple of m first does not change the remainder modulo m. */
  lemma ModOfMod(x: int, m: int, t: int)
    requires m > 0 && t > 0
    ensures (x % (m * t)) % m == x % m
  {
    var big := m * t;
    assert x % big == x + (-(t * (x / big))) * m by {
      assert x == big * (x / big) + x % big;
    }
    ModAddMultiple(x, -(t * (x / big)), m);
  }

  /** Remainders modulo m are preserved by adding, negating and multiplying. */
  lemma ModAddCongruent(x: int, y: int, z: int, m: int)
    requires m > 0 && x % m == y % m
    ensures (x + z) % m == (y + z) % m
  {
    assert x + z == (y + z) + (x / m - y / m) * m by {
      assert x == m * (x / m) + x % m;
      assert y == m * (y / m) + y % m;
    }
    ModAddMultiple(y + z, x / m - y / m, m);
  }

  lemma ModNegCongruent(x: int, y: int, m: int)
    requires m > 0 && x % m == y % m
    ensures (-x) % m == (-y) % m
  {
    assert -x == -y + (y / m - x / m) * m by {
      assert x == m * (x / m) + x % m;
      assert y == m * (y / m) + y % m;
    }
    ModAddMultiple(-y, y / m - x / m, m);
  }

  lemma ModMulCongruent(x: int, y: int, z: int, m: int)
    requires m > 0 && x % m == y % m
    ensures (x * z) % m == (y * z) % m
  {
    var d := x / m - y / m;
    assert x - y == d * m by {
      assert x == m * (x / m) + x % m;
      assert y == m * (y / m) + y % m;
    }
    assert x * z == y * z + (d * z) * m by {
      assert x * z == (y + d * m) * z;
    }
    ModAddMultiple(y * z, d * z, m);
  }

  lemma MulBound(x: int, y: int, xBound: int, yBound: int)
    requires 0 <= x <= xBound && 0 <= y <= yBound
    ensures x * y <= xBound * yBound
  {
    assert x * y <= xBound * y;
    assert xBound * y <= xBound * yBound;
  }

  lemma MulNegLeft(a: int, b: int)
    ensures (-a) * b == -(a * b)
  {
  }

  lemma MulMonotone(d: int, a: int, b: int)
    requires d > 0 && a <= b
    ensures d * a <= d * b
  {
    assert d * b - d * a == d * (b - a);
  }

  /** Multiplying by a positive number keeps the order of two numbers. */
  lemma MulOrder(a: int, b: int, d: int)
    requires d > 0
    ensures a < b <==> a * d < b * d
    ensures a == b <==> a * d == b * d
  {
    if a < b {
      MulMonotone(d, a + 1, b);
    } else if b < a {
      MulMonotone(d, b + 1, a);
    }
  }

  /** Flooring division by a positive number keeps a value inside [lo, hi]
      when lo <= 0 <= hi. */
  lemma DivPreservesBounds(x: int, d: int, lo: int, hi: int)
    requires d > 0 && lo <= 0 <= hi && lo <= x <= hi
    ensures lo <= x / d <= hi
  {
    var q, r := x / d, x % d;
    assert x == d * q + r && 0 <= r < d;
    if x >= 0 {
      if q < 0 { MulMonotone(d, q, -1); }
      if q >= 1 { MulMonotone(q, 1, d); }
    } else {
      if q >= 0 { MulMonotone(d, 0, q); }
      if d > 1 {
        MulMonotone(d - 1, q, -1);
        assert x - q == (d - 1) * q + r;
      }
    }
  }

  lemma MulDivCancel(x: int, d: int)
    requires d > 0
    ensures (x * d) / d == x
  {
    var q, r := (x * d) / d, (x * d) % d;
    assert x * d == d * q + r && 0 <= r < d;
    assert d * (x - q) == r;
    if x - q >= 1 {
      MulMonotone(d, 1, x - q);
    } else if x - q <= -1 {
      MulMonotone(d, x - q, -1);
    }
  }

  /** The remainder of a flooring division lies in [0, d). */
  lemma DivRemainder(x: int, d: int)
    requires d > 0
    ensures (x / d) * d <= x < (x / d) * d + d
  {
    assert x == d * (x / d) + x % d;
  }

  /** The quotient times the divisor gives x back exactly when d divides x. */
  lemma DivExact(x: int, d: int)
    requires d > 0
    ensures (x / d) * d == x <==> x % d == 0
  {
    assert x == d * (x / d) + x % d;
  }

  lemma DivMonotone(a: int, b: int, d: int)
    requires d > 0 && a <= b
    ensures a / d <= b / d
  {
    DivRemainder(a, d);
    DivRemainder(b, d);
    if a / d > b / d {
      MulMonotone(d, b / d + 1, a / d);
    }
  }

  /** Flooring division by d > 0 against a bound K: x / d < K exactly when
      x < K * d. */
  lemma DivBelow(x: int, d: int, k: int)
    requires d > 0
    ensures x < k * d <==> x / d < k
  {
    DivRemainder(x, d);
    if x / d < k {
      MulMonotone(d, x / d + 1, k);
    } else {
      MulMonotone(d, k, x / d);
    }
  }

  /** Flooring division has one quotient: the q with x = d q + r, 0 <= r < d. */
  lemma DivUnique(x: int, d: int, q: int, r: int)
    requires d > 0 && x == d * q + r && 0 <= r < d
    ensures x / d == q
  {
    DivRemainder(x, d);
    if x / d > q {
      MulMonotone(d, q + 1, x / d);
    } else if x / d < q {
      MulMonotone(d, x / d + 1, q);
    }
  }

  /** Scaling the dividend by p and flooring the quotient by p again gives
      the quotient itself. */
  lemma DivOfScaled(x: int, v: int, p: int)
    requires v > 0 && p > 0
    ensures ((x * p) / v) / p == x / v
  {
    var q, r := x / v, x % v;
    assert x == v * q + r && 0 <= r < v;
    var t := (r * p) / v;
    DivRemainder(r * p, v);
    DivBelow(r * p, v, p);
    assert r * p < p * v by {
      MulMonotone(p, r, v - 1);
    }
    assert x * p == v * (q * p + t) + (r * p - t * v);
    DivUnique(x * p, v, q * p + t, r * p - t * v);
    DivUnique(q * p + t, p, q, t);
  }
}
