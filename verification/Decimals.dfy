/** Fixed-point decimals with 18 places (types/decimal.go).

  A `Dec` refers to a big integer holding the value times 10^18. The mutating operations work
  in place on a `BigInt`, and may be given the same object twice. */
module Decimals {
  import opened Outcomes

  const ONE: int := 1_000_000_000_000_000_000

  const HALF: int := 500_000_000_000_000_000

  /** `BitLen() <= 316` is a magnitude below 2^316. */
  const DEC_LIMIT: int := 0x1000_0000000000000000_0000000000000000_0000000000000000_0000000000000000_000000000000

  class BigInt {
    var v: int

    constructor (x: int)
      ensures v == x
    {
      v := x;
    }
  }

  function Abs(x: int): int {
    if x < 0 then -x else x
  }

  /** `big.Int.Quo`: division truncated toward zero. */
  function Quo(a: int, b: int): int
    requires b != 0
  {
    if (a < 0) == (b < 0) then Abs(a) / Abs(b) else -(Abs(a) / Abs(b))
  }

  // ---------------------------------------------------------------- rounding

  /** `q` is the multiple of one unit nearest to `x`; a tie goes to the even one. */
  predicate NearestEven(x: int, q: int) {
    && 2 * Abs(x - q * ONE) <= ONE
    && (2 * Abs(x - q * ONE) == ONE ==> q % 2 == 0)
  }

  predicate IsCeiling(x: int, q: int) {
    (q - 1) * ONE < x <= q * ONE
  }

  lemma NearestUnique(x: int, p: int, q: int)
    requires NearestEven(x, p) && NearestEven(x, q)
    ensures p == q
  {
    assert -1 <= p - q <= 1;
  }

  lemma NearestExists(x: int)
    ensures exists q :: NearestEven(x, q)
  {
    var q, r := x / ONE, x % ONE;
    assert x == q * ONE + r;
    if r < HALF || (r == HALF && q % 2 == 0) {
      assert NearestEven(x, q);
    } else {
      assert NearestEven(x, q + 1);
    }
  }

  ghost function Rounded(x: int): (q: int)
    ensures NearestEven(x, q)
  {
    NearestExists(x);
    var q :| NearestEven(x, q);
    q
  }

  ghost function Ceiling(x: int): (q: int)
    ensures IsCeiling(x, q)
  {
    if x % ONE == 0 then x / ONE else x / ONE + 1
  }

  lemma RoundedIs(x: int, q: int)
    requires NearestEven(x, q)
    ensures Rounded(x) == q
  {
    NearestUnique(x, Rounded(x), q);
  }

  lemma RoundedOdd(x: int)
    ensures Rounded(-x) == -Rounded(x)
  {
    RoundedIs(-x, -Rounded(x));
  }

  lemma RoundedExact(q: int)
    ensures Rounded(q * ONE) == q
  {
    RoundedIs(q * ONE, q);
  }

  /** The rounded value from quotient and remainder. */
  lemma RoundedFromRemainder(q: int, rem: int)
    requires 0 <= rem < ONE
    ensures Rounded(q * ONE + rem) == if rem < HALF || (rem == HALF && q % 2 == 0) then q else q + 1
  {
    hide Rounded;
    RoundedIs(q * ONE + rem, if rem < HALF || (rem == HALF && q % 2 == 0) then q else q + 1);
  }

  /** `chopPrecisionAndRound`: drop 18 digits with banker's rounding, in place. */
  method ChopPrecisionAndRound(d: BigInt)
    modifies d
    ensures d.v == Rounded(old(d.v))
    decreases if d.v < 0 then 1 else 0
  {
    hide Rounded;
    if d.v < 0 {
      d.v := -d.v;
      ChopPrecisionAndRound(d);
      RoundedOdd(old(d.v));
      d.v := -d.v;
      return;
    }
    var rem := d.v % ONE;
    d.v := d.v / ONE;
    assert old(d.v) == d.v * ONE + rem;
    RoundedFromRemainder(d.v, rem);
    if rem == 0 {
      return;
    }
    if rem < HALF {
      return;
    } else if rem > HALF {
      d.v := d.v + 1;
    } else {
      if d.v % 2 != 0 {
        d.v := d.v + 1;
      }
    }
  }

  /** `chopPrecisionAndTruncate`: the largest magnitude not above that of the argument, with its sign. */
  method ChopPrecisionAndTruncate(d: BigInt)
    modifies d
    ensures d.v == Quo(old(d.v), ONE)
    ensures Abs(d.v) * ONE <= Abs(old(d.v)) < (Abs(d.v) + 1) * ONE
    ensures (old(d.v) >= 0 ==> d.v >= 0) && (old(d.v) <= 0 ==> d.v <= 0)
  {
    d.v := Quo(d.v, ONE);
  }

  /** `chopPrecisionAndRoundUp` is the ceiling on both sides of zero. */
  method ChopPrecisionAndRoundUp(d: BigInt)
    modifies d
    ensures d.v == Ceiling(old(d.v))
  {
    if d.v < 0 {
      d.v := -d.v;
      ChopPrecisionAndTruncate(d);
      d.v := -d.v;
      return;
    }
    var rem := d.v % ONE;
    d.v := d.v / ONE;
    if rem == 0 {
      return;
    }
    d.v := d.v + 1;
  }

  // ---------------------------------------------------------------- multiplication

  ghost function Mul(x: int, y: int): Outcome<int> {
    if Abs(Rounded(x * y)) < DEC_LIMIT then Value(Rounded(x * y)) else Panic
  }

  /** `MulMut`, also when `d` and `d2` are the same object. */
  method MulMut(d: BigInt, d2: BigInt) returns (panics: bool)
    modifies d
    ensures panics <==> Mul(old(d.v), old(d2.v)).Panic?
    ensures !panics ==> d.v == Mul(old(d.v), old(d2.v)).value
  {
    d.v := d.v * d2.v;
    ChopPrecisionAndRound(d);
    panics := !(Abs(d.v) < DEC_LIMIT);
  }

  /** The product is the nearest decimal, ties to even, and changes sign with either factor. */
  lemma MulNearestAndOdd(x: int, y: int)
    ensures Mul(x, y).Value? ==> NearestEven(x * y, Mul(x, y).value)
    ensures Mul(-x, y).Panic? <==> Mul(x, y).Panic?
    ensures Mul(x, y).Value? ==> Mul(-x, y) == Value(-Mul(x, y).value)
    ensures Mul(x, y) == Mul(y, x)
  {
    assert (-x) * y == -(x * y);
    RoundedOdd(x * y);
  }

  // ---------------------------------------------------------------- quotients

  /** The double-precision quotient all three variants start from. */
  function RawQuo(d: int, d2: int): int
    requires d2 != 0
  {
    Quo(d * ONE * ONE, d2)
  }

  /** The divisor is read after the dividend has been scaled, so `d` must not be its own divisor. */
  method RawQuoMut(d: BigInt, d2: BigInt)
    requires d2.v != 0
    modifies d
    ensures d.v == if d2 != d then RawQuo(old(d.v), old(d2.v)) else 1
  {
    d.v := d.v * ONE;
    d.v := d.v * ONE;
    if d == d2 { DivUnique(Abs(d.v), Abs(d.v), 1, 0); }
    d.v := Quo(d.v, d2.v);
  }

  ghost function Bounded(x: int): Outcome<int> {
    if Abs(x) < DEC_LIMIT then Value(x) else Panic
  }

  ghost function QuoRounded(d: int, d2: int): Outcome<int> {
    if d2 == 0 then Panic else Bounded(Rounded(RawQuo(d, d2)))
  }

  ghost function QuoTruncated(d: int, d2: int): Outcome<int> {
    if d2 == 0 then Panic else Bounded(Quo(RawQuo(d, d2), ONE))
  }

  ghost function QuoRoundedUp(d: int, d2: int): Outcome<int> {
    if d2 == 0 then Panic else Bounded(Ceiling(RawQuo(d, d2)))
  }

  /** `QuoMut`. The result is within 1/2 + 10^-18 last places of the exact quotient `d * ONE / d2`; the
      bound is multiplied out by `2 * ONE * |d2|`. Divided by itself in place a decimal becomes zero,
      not one. */
  method QuoMut(d: BigInt, d2: BigInt) returns (panics: bool)
    modifies d
    ensures d != d2 ==> (panics <==> QuoRounded(old(d.v), old(d2.v)).Panic?)
    ensures d != d2 && !panics ==> d.v == QuoRounded(old(d.v), old(d2.v)).value
    ensures d != d2 && !panics ==>
              2 * ONE * Abs(d.v * old(d2.v) - old(d.v) * ONE) < (ONE + 2) * Abs(old(d2.v))
    ensures d == d2 && old(d.v) != 0 ==> !panics && d.v == 0
  {
    if d2.v == 0 {
      return true;
    }
    ghost var dividend, divisor := d.v, d2.v;
    RawQuoMut(d, d2);
    ghost var raw := d.v;
    if d == d2 { RoundedIs(1, 0); }
    ChopPrecisionAndRound(d);
    if d != d2 {
      QuoRemainder(dividend * ONE * ONE, divisor);
      ScaledError(d.v * ONE - raw, divisor);
      Distribute(d.v, raw, divisor);
      LinearErrors(d.v * divisor, raw * divisor, (d.v * ONE - raw) * divisor, dividend, Abs(divisor));
    }
    panics := !(Abs(d.v) < DEC_LIMIT);
  }

  method QuoTruncateMut(d: BigInt, d2: BigInt) returns (panics: bool)
    modifies d
    ensures d != d2 ==> (panics <==> QuoTruncated(old(d.v), old(d2.v)).Panic?)
    ensures d != d2 && !panics ==> d.v == QuoTruncated(old(d.v), old(d2.v)).value
    ensures d == d2 && old(d.v) != 0 ==> !panics && d.v == 0
  {
    if d2.v == 0 {
      return true;
    }
    RawQuoMut(d, d2);
    ChopPrecisionAndTruncate(d);
    panics := !(Abs(d.v) < DEC_LIMIT);
  }

  method QuoRoundupMut(d: BigInt, d2: BigInt) returns (panics: bool)
    modifies d
    ensures d != d2 ==> (panics <==> QuoRoundedUp(old(d.v), old(d2.v)).Panic?)
    ensures d != d2 && !panics ==> d.v == QuoRoundedUp(old(d.v), old(d2.v)).value
    ensures d == d2 && old(d.v) != 0 ==> !panics && d.v == 1
  {
    if d2.v == 0 {
      return true;
    }
    RawQuoMut(d, d2);
    ChopPrecisionAndRoundUp(d);
    panics := !(Abs(d.v) < DEC_LIMIT);
  }

  lemma MulMonotone(x: int, y: int, z: int)
    requires x <= y && z >= 0
    ensures x * z <= y * z
  {
  }

  lemma SmallMultiple(k: int, b: int)
    requires b > 0 && -b < k * b < b
    ensures k == 0
  {
    if k > 0 { MulMonotone(1, k, b); }
    if k < 0 { MulMonotone(k, -1, b); }
  }

  lemma DivUnique(a: int, b: int, q: int, r: int)
    requires b > 0 && a == q * b + r && 0 <= r < b
    ensures a / b == q && a % b == r
  {
    var k := q - a / b;
    assert k * b == q * b - a / b * b;
    SmallMultiple(k, b);
  }

  lemma DivNonNegative(a: int, b: int)
    requires a >= 0 && b > 0
    ensures a / b >= 0
  {
  }

  lemma QuotientBelow(a: int, b: int, m: int)
    requires 0 <= a < m * b && b > 0
    ensures 0 <= a / b < m
  {
    DivNonNegative(a, b);
    if a / b >= m { MulMonotone(m, a / b, b); }
  }

  /** The quotient of a scaled value in whole units and a fraction that comes from the remainder. */
  lemma ScaledQuotient(a: int, b: int)
    requires a >= 0 && b > 0
    ensures 0 <= a % b * ONE / b < ONE
    ensures a * ONE / b == a / b * ONE + a % b * ONE / b
    ensures a * ONE % b == a % b * ONE % b
  {
    var q, r := a / b, a % b;
    var f, g := r * ONE / b, r * ONE % b;
    assert a == q * b + r && r * ONE == f * b + g;
    QuotientBelow(r * ONE, b, ONE);
    assert a * ONE == (q * ONE + f) * b + g by {
      assert (q * ONE + f) * b == q * b * ONE + f * b;
    }
    DivUnique(a * ONE, b, q * ONE + f, g);
  }

  /** Truncating a quotient of a scaled value and then unscaling is one truncation. */
  lemma FloorOfFloor(a: int, b: int)
    requires a >= 0 && b > 0
    ensures (a * ONE / b) / ONE == a / b
  {
    ScaledQuotient(a, b);
    DivUnique(a * ONE / b, ONE, a / b, a % b * ONE / b);
  }

  /** `QuoTruncate` truncates twice and still gives the exact quotient truncated once. */
  lemma QuoTruncateExact(d: int, d2: int)
    requires d2 != 0
    ensures Quo(RawQuo(d, d2), ONE) == Quo(d * ONE, d2)
  {
    FloorOfFloor(Abs(d) * ONE, Abs(d2));
    assert Abs(d * ONE * ONE) == Abs(d) * ONE * ONE && Abs(d * ONE) == Abs(d) * ONE;
    var m := Abs(d) * ONE * ONE / Abs(d2);
    DivNonNegative(Abs(d) * ONE * ONE, Abs(d2));
    assert Abs(RawQuo(d, d2)) == m;
  }

  /** For a non-negative quotient the three roundings differ by at most one last place. */
  lemma QuoSandwich(d: int, d2: int)
    requires d2 != 0 && RawQuo(d, d2) >= 0
    ensures Quo(RawQuo(d, d2), ONE) <= Rounded(RawQuo(d, d2)) <= Ceiling(RawQuo(d, d2)) <= Quo(RawQuo(d, d2), ONE) + 1
  {
    var x := RawQuo(d, d2);
    var q := x / ONE;
    assert q * ONE <= x < (q + 1) * ONE;
  }

  lemma QuoRemainder(a: int, b: int)
    requires b != 0
    ensures Abs(a - Quo(a, b) * b) < Abs(b)
    ensures a >= 0 ==> a - Quo(a, b) * b >= 0
    ensures a <= 0 ==> a - Quo(a, b) * b <= 0
  {
    var q, r := Abs(a) / Abs(b), Abs(a) % Abs(b);
    assert Abs(a) == q * Abs(b) + r;
    assert Quo(a, b) * b == if a < 0 then -(q * Abs(b)) else q * Abs(b);
  }

  lemma Distribute(q: int, x: int, d2: int)
    ensures (q * ONE - x) * d2 == q * d2 * ONE - x * d2
  {
  }

  lemma ScaledError(e: int, d2: int)
    requires 2 * Abs(e) <= ONE
    ensures 2 * Abs(e * d2) <= ONE * Abs(d2)
  {
    AbsProduct(e, d2);
    MulMonotone(2 * Abs(e), ONE, Abs(d2));
    assert 2 * Abs(e) * Abs(d2) == 2 * (Abs(e) * Abs(d2));
  }

  /** Half a unit from rounding, and less than one divisor from truncation. */
  lemma LinearErrors(p: int, t: int, g: int, d: int, n: int)
    requires g == p * ONE - t && 2 * Abs(g) <= ONE * n && Abs(t - d * ONE * ONE) < n
    ensures 2 * ONE * Abs(p - d * ONE) < (ONE + 2) * n
  {
  }

  lemma AbsProduct(x: int, y: int)
    ensures Abs(x * y) == Abs(x) * Abs(y)
  {
  }

  /** `q` is the ceiling of the exact quotient `d * ONE / d2` in last places. */
  predicate ExactCeiling(d: int, d2: int, q: int)
    requires d2 != 0
  {
    if d2 > 0 then (q - 1) * d2 < d * ONE <= q * d2 else q * d2 <= d * ONE < (q - 1) * d2
  }

  /** `QuoRoundUp` rounds up a quotient that was already truncated at 36 decimals. It misses the exact
      ceiling just when a positive quotient has something after its 18 decimals, but so little that the
      truncation drops it. */
  predicate RoundUpMisses(d: int, d2: int)
    requires d2 != 0
  {
    (d < 0) == (d2 < 0) && 0 < Abs(d) * ONE % Abs(d2) * ONE < Abs(d2)
  }

  /** No divisor of magnitude at most one misses. */
  lemma NoMissUpToOne(d: int, d2: int)
    requires d2 != 0 && Abs(d2) <= ONE
    ensures !RoundUpMisses(d, d2)
  {
  }

  lemma DivisionParts(a: int, n: int)
    requires n > 0
    ensures a == a / n * n + a % n
  {
  }

  lemma SmallQuotient(x: int, n: int)
    requires x >= 0 && n > 0
    ensures x / n == 0 <==> x < n
    ensures x < n ==> x % n == x
  {
    if x < n {
      DivUnique(x, n, 0, x);
    }
  }

  /** The same in terms of the truncated quotient. */
  lemma MissesInTruncation(d: int, d2: int)
    requires d2 != 0
    ensures RoundUpMisses(d, d2) <==>
              (d < 0) == (d2 < 0) && RawQuo(d, d2) % ONE == 0 && RawQuo(d, d2) * d2 != d * ONE * ONE
  {
    if (d < 0) == (d2 < 0) {
      var a, n := Abs(d) * ONE, Abs(d2);
      var x := a % n * ONE;
      ScaledQuotient(a, n);
      SmallQuotient(x, n);
      assert Abs(d * ONE * ONE) == a * ONE;
      DivUnique(a * ONE / n, ONE, a / n, x / n);
      DivisionParts(a * ONE, n);
      SignedProduct(RawQuo(d, d2), d2);
    }
  }

  /** What the ceiling of `raw` says about multiples of `n`. */
  lemma CeilingTimes(raw: int, n: int)
    requires n > 0
    ensures (Ceiling(raw) - 1) * n * ONE <= raw * n - n
    ensures raw % ONE != 0 ==> raw * n + n <= Ceiling(raw) * n * ONE
    ensures raw % ONE == 0 ==> raw * n == Ceiling(raw) * n * ONE
  {
    var c := Ceiling(raw);
    MulMonotone((c - 1) * ONE, raw - 1, n);
    TimesOne(c - 1, n);
    TimesOne(c, n);
    if raw % ONE != 0 {
      MulMonotone(raw + 1, c * ONE, n);
    }
  }

  lemma TimesOne(c: int, n: int)
    ensures c * ONE * n == c * n * ONE
  {
  }

  lemma SignedProduct(k: int, d2: int)
    ensures d2 < 0 ==> k * d2 == -(k * Abs(d2))
  {
  }

  lemma QuoRoundUpExactness(d: int, d2: int)
    requires d2 != 0
    ensures ExactCeiling(d, d2, Ceiling(RawQuo(d, d2))) <==> !RoundUpMisses(d, d2)
  {
    var raw := RawQuo(d, d2);
    var c := Ceiling(raw);
    MissesInTruncation(d, d2);
    QuoRemainder(d * ONE * ONE, d2);
    CeilingTimes(raw, Abs(d2));
    SignedProduct(raw, d2);
    SignedProduct(c, d2);
    SignedProduct(c - 1, d2);
  }

  /** The smallest decimal divided by 10^18 and a last place: the exact ceiling is one last place. */
  lemma QuoRoundUpCanMiss()
    ensures QuoRoundedUp(1, ONE * ONE + 1) == Value(0)
    ensures RoundUpMisses(1, ONE * ONE + 1) && ExactCeiling(1, ONE * ONE + 1, 1)
  {
    DivUnique(ONE * ONE, ONE * ONE + 1, 0, ONE * ONE);
    DivUnique(ONE, ONE * ONE + 1, 0, ONE);
  }
}
