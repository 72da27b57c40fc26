/** The built-in integer types the fixed-point representation is drawn from,
    described as values: signedness and size in bytes. Every type-level
    helper of the header that works on integer types (`make_int`,
    `num_bits`, `next_size`, `previous_size`, `common_repr_type`,
    `capacity`, `sufficient_repr`) becomes a function on descriptors,
    and `static_cast` between them becomes `Wrap`. */
module IntKinds {
  import opened Bits

  /** `make_int<Signed, Bytes>`; sizes 1, 2, 4, 8 and 16 (`__int128`) exist. */
  datatype IntKind = IntKind(signed: bool, bytes: nat) {
    predicate Valid() {
      IsSupportedSize(bytes)
    }
  }

  predicate IsSupportedSize(bytes: int) {
    bytes == 1 || bytes == 2 || bytes == 4 || bytes == 8 || bytes == 16
  }

  /** `make_int<Signed, NumBytes>`: only the specialised sizes name a type. */
  function MakeInt(signed: bool, bytes: nat): (k: IntKind)
    requires IsSupportedSize(bytes)
    ensures k.Valid() && k.signed == signed && k.bytes == bytes
  {
    IntKind(signed, bytes)
  }

  /** `num_bits<T>()`: `sizeof(T) * CHAR_BIT`. */
  function NumBits(k: IntKind): nat {
    8 * k.bytes
  }

  /** Bits of precision: the sign bit is not counted. */
  function Digits(k: IntKind): nat
    requires k.Valid()
  {
    NumBits(k) - (if k.signed then 1 else 0)
  }

  /** 2^NumBits(k), written out for each size so that reducing modulo it
      stays linear arithmetic. */
  function Modulus(k: IntKind): (m: nat)
    requires k.Valid()
    ensures m >= 0x100
  {
    if k.bytes == 1 then 0x100
    else if k.bytes == 2 then 0x1_0000
    else if k.bytes == 4 then 0x1_0000_0000
    else if k.bytes == 8 then 0x1_0000_0000_0000_0000
    else 0x1_0000_0000_0000_0000_0000_0000_0000_0000
  }

  /** `std::numeric_limits<k>::lowest()`. */
  function MinValue(k: IntKind): int
    requires k.Valid()
  {
    if k.signed then -(Modulus(k) / 2) else 0
  }

  /** `std::numeric_limits<k>::max()`. */
  function MaxValue(k: IntKind): int
    requires k.Valid()
  {
    (if k.signed then Modulus(k) / 2 else Modulus(k)) - 1
  }

  predicate InRange(k: IntKind, x: int)
    requires k.Valid()
  {
    MinValue(k) <= x <= MaxValue(k)
  }

  /** The range of a kind in powers of two: 2^bits values, 2^digits of them
      not negative. */
  lemma RangeIsPow2(k: IntKind)
    requires k.Valid()
    ensures Modulus(k) == Pow2(NumBits(k))
    ensures MaxValue(k) == Pow2(Digits(k)) - 1
    ensures MinValue(k) == if k.signed then -(Pow2(Digits(k)) as int) else 0
  {
    if k.bytes == 1 {
      Pow2Of8();
    } else if k.bytes == 2 {
      Pow2Of16();
    } else if k.bytes == 4 {
      Pow2Of32();
    } else if k.bytes == 8 {
      Pow2Of64();
    } else {
      Pow2Of128();
    }
  }

  /** The range of a kind bounds the magnitude of its values by 2^digits,
      strictly for an unsigned kind. */
  lemma MagnitudeBound(k: IntKind, x: int)
    requires k.Valid() && InRange(k, x)
    ensures Abs(x) <= Pow2(Digits(k)) && x < Pow2(Digits(k))
    ensures !k.signed ==> 0 <= x
  {
    RangeIsPow2(k);
  }

  /** `static_cast<k>(x)` on the gcc/clang targets the header is written for:
      two's-complement reduction of x into the range of k. */
  function Wrap(k: IntKind, x: int): (r: int)
    requires k.Valid()
    ensures InRange(k, r)
  {
    var u :=
      if k.bytes == 1 then x % 0x100
      else if k.bytes == 2 then x % 0x1_0000
      else if k.bytes == 4 then x % 0x1_0000_0000
      else if k.bytes == 8 then x % 0x1_0000_0000_0000_0000
      else x % 0x1_0000_0000_0000_0000_0000_0000_0000_0000;
    if k.signed && u > MaxValue(k) then u - Modulus(k) else u
  }

  /** Casting keeps the value modulo 2^bits. */
  lemma WrapResidue(k: IntKind, x: int)
    requires k.Valid()
    ensures Wrap(k, x) % Modulus(k) == x % Modulus(k)
  {
  }

  /** Casting a value that is already in range changes nothing. */
  lemma WrapOfInRange(k: IntKind, x: int)
    requires k.Valid() && InRange(k, x)
    ensures Wrap(k, x) == x
  {
  }

  /** Congruent values cast to the same value. */
  lemma WrapCongruent(k: IntKind, x: int, y: int)
    requires k.Valid() && x % Modulus(k) == y % Modulus(k)
    ensures Wrap(k, x) == Wrap(k, y)
  {
  }

  /** An in-range value congruent to x is Wrap(k, x). */
  lemma WrapUnique(k: IntKind, r: int, x: int)
    requires k.Valid() && InRange(k, r) && r % Modulus(k) == x % Modulus(k)
    ensures r == Wrap(k, x)
  {
    WrapOfInRange(k, r);
    WrapCongruent(k, r, x);
  }

  /** The modulus of a kind divides the modulus of every wider kind. */
  lemma ModulusDivides(k: IntKind, k2: IntKind)
    requires k.Valid() && k2.Valid() && k.bytes <= k2.bytes
    ensures Modulus(k2) / Modulus(k) > 0
    ensures Modulus(k2) == Modulus(k) * (Modulus(k2) / Modulus(k))
  {
  }

  /** Values congruent modulo m * t are congruent modulo m. */
  lemma CongruentModFactor(y: int, x: int, m: int, t: int)
    requires m > 0 && t > 0 && y % (m * t) == x % (m * t)
    ensures y % m == x % m
  {
    ModOfMod(y, m, t);
    ModOfMod(x, m, t);
  }

  /** Casting through a kind at least as wide changes nothing modulo the narrower one. */
  lemma WrapThroughWider(k: IntKind, k2: IntKind, x: int)
    requires k.Valid() && k2.Valid() && k.bytes <= k2.bytes
    ensures Wrap(k, Wrap(k2, x)) == Wrap(k, x)
    ensures Wrap(k2, x) % Modulus(k) == x % Modulus(k)
  {
    ModulusDivides(k, k2);
    WrapResidue(k2, x);
    CongruentModFactor(Wrap(k2, x), x, Modulus(k), Modulus(k2) / Modulus(k));
    WrapCongruent(k, Wrap(k2, x), x);
  }

  lemma WrapNegate(k: IntKind, x: int, y: int)
    requires k.Valid() && x % Modulus(k) == y % Modulus(k)
    ensures Wrap(k, -x) == Wrap(k, -y)
  {
    ModNegCongruent(x, y, Modulus(k));
    WrapCongruent(k, -x, -y);
  }

  /** Negating twice with a cast after each negation gives back any value
      of k. */
  lemma WrapNegateTwice(k: IntKind, x: int)
    requires k.Valid() && InRange(k, x)
    ensures Wrap(k, -Wrap(k, -x)) == x
  {
    var y := Wrap(k, -x);
    WrapResidue(k, -x);
    WrapNegate(k, y, -x);
    WrapOfInRange(k, x);
  }

  lemma WrapAdd(k: IntKind, x: int, y: int, z: int)
    requires k.Valid() && x % Modulus(k) == y % Modulus(k)
    ensures Wrap(k, x + z) == Wrap(k, y + z)
  {
    ModAddCongruent(x, y, z, Modulus(k));
    WrapCongruent(k, x + z, y + z);
  }

  lemma WrapMul(k: IntKind, x: int, y: int, z: int)
    requires k.Valid() && x % Modulus(k) == y % Modulus(k)
    ensures Wrap(k, x * z) == Wrap(k, y * z)
  {
    ModMulCongruent(x, y, z, Modulus(k));
    WrapCongruent(k, x * z, y * z);
  }

  /** A non-zero value of a kind no wider than k stays non-zero when cast to k. */
  lemma WrapNonZero(k: IntKind, small: IntKind, y: int)
    requires k.Valid() && small.Valid() && small.bytes <= k.bytes && InRange(small, y) && y != 0
    ensures Wrap(k, y) != 0
  {
    WrapResidue(k, y);
    var m := Modulus(small);
    assert m <= Modulus(k);
    assert m / 2 < m;
  }

  /** Cast to a signed kind, 2^digits is the kind's minimum. */
  lemma WrapOfDigitsPower(k: IntKind)
    requires k.Valid() && k.signed
    ensures Wrap(k, Pow2(Digits(k))) == MinValue(k) < 0
  {
    RangeIsPow2(k);
    assert Modulus(k) == 2 * Pow2(Digits(k)) by {
      Pow2Add(Digits(k), 1);
    }
    ModAddMultiple(MinValue(k), 1, Modulus(k));
    WrapUnique(k, MinValue(k), Pow2(Digits(k)));
  }

  /** 2^n reduced into a signed kind with at least n digits: itself, or the
      kind's minimum -2^n when n is exactly its digits. */
  lemma PowerWrap(k: IntKind, n: nat)
    requires k.Valid() && k.signed && n <= Digits(k)
    ensures Wrap(k, Pow2(n)) == if n < Digits(k) then Pow2(n) else -(Pow2(n) as int)
  {
    RangeIsPow2(k);
    if n < Digits(k) {
      Pow2Monotone(n + 1, Digits(k));
      assert Pow2(n + 1) == 2 * Pow2(n);
      WrapOfInRange(k, Pow2(n));
    } else {
      WrapOfDigitsPower(k);
    }
  }

  /** When the values of k fit in k2. */
  predicate Fits(k: IntKind, k2: IntKind)
  {
    (k.signed == k2.signed && k.bytes <= k2.bytes) || (k2.signed && k.bytes < k2.bytes)
  }

  /** A value of k is also a value of k2 when k2 is at least as wide and
      either keeps the sign or the value is not negative. */
  lemma RangeInclusion(k: IntKind, k2: IntKind, x: int)
    requires k.Valid() && k2.Valid() && InRange(k, x)
    requires Fits(k, k2) || (k.bytes <= k2.bytes && x >= 0 && !k2.signed)
    ensures InRange(k2, x)
  {
    Pow2Monotone(Digits(k), Digits(k2));
    if k.signed && k2.signed {
      Pow2Monotone(NumBits(k) - 1, NumBits(k2) - 1);
    }
  }

  /** Scaling a value of k by 2^d stays in range for a kind k2 with at least
      d more digits that keeps a sign k has. */
  lemma ScaledFits(k: IntKind, k2: IntKind, x: int, d: nat)
    requires k.Valid() && k2.Valid() && InRange(k, x)
    requires Digits(k) + d <= Digits(k2) && (k.signed ==> k2.signed)
    ensures InRange(k2, x * Pow2(d))
  {
    var pk, p, pk2 := Pow2(Digits(k)), Pow2(d), Pow2(Digits(k2));
    MagnitudeBound(k, x);
    Pow2Add(Digits(k), d);
    Pow2Monotone(Digits(k) + d, Digits(k2));
    ScaledBelow(x, pk, p, pk2);
    RangeIsPow2(k2);
  }

  /** The arithmetic of `ScaledFits`: x in [-pk, pk) scaled by p lies in
      [-pk2, pk2) when pk * p <= pk2, and keeps its sign. */
  lemma ScaledBelow(x: int, pk: int, p: int, pk2: int)
    requires p >= 1 && pk * p <= pk2 && -pk <= x < pk
    ensures -pk2 <= x * p < pk2
    ensures x >= 0 ==> x * p >= 0
  {
    MulMonotone(p, x, pk - 1);
    MulMonotone(p, -pk, x);
    assert p * (pk - 1) == pk * p - p;
    if x >= 0 {
      MulMonotone(p, 0, x);
    }
  }

  /** `next_size<T>`: the same signedness at twice the size. */
  function NextSize(k: IntKind): (r: IntKind)
    requires k.Valid() && k.bytes <= 8
    ensures r.Valid() && r.signed == k.signed && NumBits(r) == 2 * NumBits(k)
    ensures Fits(k, r)
  {
    MakeInt(k.signed, 2 * k.bytes)
  }

  /** `previous_size<T>`: the same signedness at half the size. */
  function PreviousSize(k: IntKind): (r: IntKind)
    requires k.Valid() && k.bytes >= 2
    ensures r.Valid() && r.signed == k.signed && 2 * NumBits(r) == NumBits(k)
  {
    MakeInt(k.signed, k.bytes / 2)
  }

  lemma NextPreviousInverse(k: IntKind)
    requires k.Valid()
    ensures k.bytes <= 8 ==> PreviousSize(NextSize(k)) == k
    ensures k.bytes >= 2 ==> NextSize(PreviousSize(k)) == k
  {
  }

  /** `make_signed<T>` and `make_unsigned<T>`: same size, other signedness. */
  function MakeSigned(k: IntKind): (r: IntKind)
    requires k.Valid()
    ensures r.Valid() && r.signed && r.bytes == k.bytes
  {
    MakeInt(true, k.bytes)
  }

  function MakeUnsigned(k: IntKind): (r: IntKind)
    requires k.Valid()
    ensures r.Valid() && !r.signed && r.bytes == k.bytes
  {
    MakeInt(false, k.bytes)
  }

  predicate AllValid(ts: seq<IntKind>) {
    forall i | 0 <= i < |ts| :: ts[i].Valid()
  }

  /** `common_repr_type<T...>`: folds from the last type to the first,
      taking the larger size and signedness if any input is signed. */
  function CommonReprType(ts: seq<IntKind>): (r: IntKind)
    requires |ts| >= 1 && AllValid(ts)
    ensures r.Valid()
    ensures forall i | 0 <= i < |ts| :: ts[i].bytes <= r.bytes
    ensures exists i | 0 <= i < |ts| :: ts[i].bytes == r.bytes
    ensures r.signed <==> exists i | 0 <= i < |ts| :: ts[i].signed
    decreases |ts|
  {
    if |ts| == 1 then
      ts[0]
    else
      var tail := CommonReprType(ts[1..]);
      assert forall i | 1 <= i < |ts| :: ts[i] == ts[1..][i - 1];
      MakeInt(ts[0].signed || tail.signed, Max(ts[0].bytes, tail.bytes))
  }

  /** The fold does not depend on the order (or the multiplicity) of its inputs. */
  lemma CommonReprTypeOrderFree(ts: seq<IntKind>, us: seq<IntKind>)
    requires |ts| >= 1 && AllValid(ts) && |us| >= 1 && AllValid(us)
    requires forall i | 0 <= i < |ts| :: ts[i] in us
    requires forall j | 0 <= j < |us| :: us[j] in ts
    ensures CommonReprType(ts) == CommonReprType(us)
  {
    var r, s := CommonReprType(ts), CommonReprType(us);
    var i :| 0 <= i < |ts| && ts[i].bytes == r.bytes;
    var j :| 0 <= j < |us| && us[j].bytes == s.bytes;
    var j' :| 0 <= j' < |us| && us[j'] == ts[i];
    var i' :| 0 <= i' < |ts| && ts[i'] == us[j];
    assert r.bytes == s.bytes;
    if r.signed {
      var a :| 0 <= a < |ts| && ts[a].signed;
      var b :| 0 <= b < |us| && us[b] == ts[a];
    }
    if s.signed {
      var a :| 0 <= a < |us| && us[a].signed;
      var b :| 0 <= b < |ts| && ts[b] == us[a];
    }
  }

  /** `capacity<N>`: the number of bits needed to write N in binary. */
  function Capacity(n: nat): (c: nat)
    ensures n == 0 ==> c == 0
    ensures n >= 1 ==> c >= 1 && Pow2(c - 1) <= n < Pow2(c)
  {
    if n == 0 then 0 else Capacity(n / 2) + 1
  }

  /** `sufficient_repr<RequiredBits, IsSigned>`: the narrowest supported kind
      with at least RequiredBits bits. RequiredBits is an unsigned template
      argument: 0 would wrap `(0 + 7) / 8 - 1` round to a huge capacity, and
      more than 128 bits names no built-in type, so both are excluded. */
  function SufficientRepr(requiredBits: nat, signed: bool): (k: IntKind)
    requires 1 <= requiredBits <= 128
    ensures k.Valid() && k.signed == signed
    ensures NumBits(k) >= requiredBits
    ensures forall b | IsSupportedSize(b) && 8 * b >= requiredBits :: k.bytes <= b
  {
    var bytes := Pow2(Capacity((requiredBits + 7) / 8 - 1));
    SufficientBytes(requiredBits);
    MakeInt(signed, bytes)
  }

  /** The kind `sufficient_repr` picks for more than half of a supported
      size's bits is that size. */
  lemma SufficientReprIs(requiredBits: nat, signed: bool, bytes: nat)
    requires IsSupportedSize(bytes) && 4 * bytes < requiredBits <= 8 * bytes
    ensures SufficientRepr(requiredBits, signed) == MakeInt(signed, bytes)
  {
    var k := SufficientRepr(requiredBits, signed);
    assert k.bytes <= bytes;
  }

  lemma SufficientBytes(requiredBits: nat)
    requires 1 <= requiredBits <= 128
    ensures var bytes := Pow2(Capacity((requiredBits + 7) / 8 - 1));
      && IsSupportedSize(bytes) && 8 * bytes >= requiredBits
      && (bytes == 1 || 8 * (bytes / 2) < requiredBits)
  {
    var m := (requiredBits + 7) / 8 - 1;
    var c := Capacity(m);
    assert m <= 15;
    assert Pow2(4) == 16;
    if c >= 5 {
      Pow2Monotone(4, c - 1);
      assert false;
    }
    assert c == 0 || c == 1 || c == 2 || c == 3 || c == 4;
    assert Pow2(1) == 2 && Pow2(2) == 4 && Pow2(3) == 8 && Pow2(4) == 16;
  }

  /** Integral promotion: operands narrower than `int` are computed as `int`. */
  function Promoted(k: IntKind): (r: IntKind)
    requires k.Valid()
    ensures r.Valid() && r.bytes >= 4 && r.bytes >= k.bytes
    ensures Fits(k, r)
  {
    if k.bytes < 4 then MakeInt(true, 4) else k
  }

  /** The usual arithmetic conversions of C++ for two integer operands of
      the fixed-width kinds (ranks ordered by size). */
  function UsualArithmetic(a: IntKind, b: IntKind): (r: IntKind)
    requires a.Valid() && b.Valid()
    ensures r.Valid() && r.bytes >= a.bytes && r.bytes >= b.bytes && r.bytes >= 4
    ensures r.signed ==> Fits(a, r) && Fits(b, r)
    ensures !r.signed ==> a.bytes <= r.bytes && b.bytes <= r.bytes
  {
    var pa, pb := Promoted(a), Promoted(b);
    if pa.signed == pb.signed then
      MakeInt(pa.signed, Max(pa.bytes, pb.bytes))
    else
      var u, s := if pa.signed then pb else pa, if pa.signed then pa else pb;
      if u.bytes >= s.bytes then u else s
  }
}
