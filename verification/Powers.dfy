/** Exponentiation by squaring: `Dec.Power` (types/decimal.go) and `RelativePow` (types/uint.go). */
module Powers {
  import opened Common
  import opened Outcomes
  import opened Decimals

  function Pow(b: int, n: nat): int {
    if n == 0 then 1 else b * Pow(b, n - 1)
  }

  lemma {:induction false} PowSquare(b: int, n: nat)
    ensures Pow(b * b, n) == Pow(b, 2 * n)
  {
    if n > 0 {
      PowSquare(b, n - 1);
      assert Pow(b, 2 * n) == b * (b * Pow(b, 2 * n - 2));
    }
  }

  /** One halving step: `b^n` is `(b^2)^(n/2)`, times `b` for odd `n`. */
  lemma PowHalve(b: int, n: nat)
    ensures Pow(b, n) == (if n % 2 == 0 then 1 else b) * Pow(b * b, n / 2)
  {
    PowSquare(b, n / 2);
  }

  lemma {:induction false} PowGrows(b: int, n: nat)
    requires b != 0
    ensures Abs(Pow(b, n)) >= 1
    ensures n >= 1 ==> Abs(Pow(b, n)) >= Abs(b)
    ensures n >= 2 ==> Abs(Pow(b, n)) >= Abs(b * b)
  {
    if n > 0 {
      PowGrows(b, n - 1);
      ProductMonotone(b, 1, Pow(b, n - 1));
      if n > 1 {
        ProductMonotone(b, b, Pow(b, n - 1));
      }
    }
  }

  /** The loop of `PowerMut`: the value it returns from running values `d`, `tmp` and exponent `i`. */
  ghost function PowerFrom(d: int, tmp: int, i: nat): Outcome<int>
    decreases i
  {
    if i <= 1 then Mul(d, tmp)
    else
      var tmp' := if i % 2 != 0 then Mul(tmp, d) else Value(tmp);
      var d' := Mul(d, d);
      if tmp'.Panic? || d'.Panic? then Panic else PowerFrom(d'.value, tmp'.value, i / 2)
  }

  ghost function Power(d: int, power: nat): Outcome<int> {
    if power == 0 then Value(ONE) else PowerFrom(d, ONE, power)
  }

  method PowerMut(d: BigInt, power: nat) returns (res: BigInt, panics: bool)
    modifies d
    ensures panics <==> Power(old(d.v), power).Panic?
    ensures !panics ==> res.v == Power(old(d.v), power).value
    ensures res == d || fresh(res)
  {
    panics := false;
    if power == 0 {
      res := new BigInt(ONE);
      return;
    }
    var tmp := new BigInt(ONE);
    res := d;
    var i := power;
    while i > 1
      invariant i >= 1 && fresh(tmp) && tmp != d
      invariant PowerFrom(d.v, tmp.v, i) == Power(old(d.v), power)
    {
      if i % 2 != 0 {
        panics := MulMut(tmp, d);
        if panics { return; }
      }
      i := i / 2;
      panics := MulMut(d, d);
      if panics { return; }
    }
    panics := MulMut(d, tmp);
  }

  lemma MulWhole(x: int, y: int)
    ensures Mul(x * ONE, y * ONE) == if Abs(x * y) * ONE < DEC_LIMIT then Value(x * y * ONE) else Panic
  {
    assert x * ONE * (y * ONE) == x * y * ONE * ONE;
    RoundedExact(x * y * ONE);
  }

  ghost function WholeResult(k: int): Outcome<int> {
    if Abs(k) * ONE < DEC_LIMIT then Value(k * ONE) else Panic
  }

  lemma ProductGrows(y: int, p: int)
    requires y != 0
    ensures Abs(y * p) >= Abs(p)
  {
    AbsProduct(y, p);
    MulMonotone(1, Abs(y), Abs(p));
  }

  lemma ProductMonotone(y: int, x: int, p: int)
    requires Abs(x) <= Abs(p)
    ensures Abs(y * x) <= Abs(y * p)
  {
    AbsProduct(y, x);
    AbsProduct(y, p);
    MulMonotone(Abs(x), Abs(p), Abs(y));
  }

  /** No intermediate product of the loop is larger than the final one. */
  lemma NoLargerStep(x: int, y: int, i: nat)
    requires x != 0 && y != 0 && i >= 2
    ensures Abs(y * Pow(x, i)) >= Abs(x * x)
    ensures Abs(y * Pow(x, i)) >= Abs(y * x)
  {
    PowGrows(x, i);
    ProductGrows(y, Pow(x, i));
    ProductMonotone(y, x, Pow(x, i));
  }

  lemma PowerStepWhole(x: int, y: int, y': int, i: nat)
    requires i >= 2 && y' == if i % 2 != 0 then y * x else y
    requires Abs(y) * ONE < DEC_LIMIT
    ensures PowerFrom(x * ONE, y * ONE, i)
         == if Abs(y') * ONE < DEC_LIMIT && Abs(x * x) * ONE < DEC_LIMIT
            then PowerFrom(x * x * ONE, y' * ONE, i / 2) else Panic
  {
    MulWhole(y, x);
    MulWhole(x, x);
  }

  lemma PowerProduct(x: int, y: int, y': int, i: nat)
    requires i >= 2 && y' == if i % 2 != 0 then y * x else y
    ensures y * Pow(x, i) == y' * Pow(x * x, i / 2)
  {
    PowHalve(x, i);
  }

  lemma {:induction false} PowerFromWhole(x: int, y: int, i: nat)
    requires i >= 1 && (x == 0 || y != 0) && Abs(y) * ONE < DEC_LIMIT
    ensures PowerFrom(x * ONE, y * ONE, i) == WholeResult(y * Pow(x, i))
    decreases i
  {
    if i == 1 {
      assert Pow(x, 1) == x * Pow(x, 0) == x;
      MulWhole(x, y);
    } else {
      var y' := if i % 2 != 0 then y * x else y;
      PowerStepWhole(x, y, y', i);
      PowerProduct(x, y, y', i);
      if x != 0 {
        NoLargerStep(x, y, i);
      }
      if Abs(y') * ONE < DEC_LIMIT && Abs(x * x) * ONE < DEC_LIMIT {
        PowerFromWhole(x * x, y', i / 2);
      }
    }
  }

  /** `Power` of a whole number is its exact power, and panics only if that power is out of range. */
  lemma PowerOfWhole(k: int, n: nat)
    ensures Power(k * ONE, n) == WholeResult(Pow(k, n))
  {
    if n > 0 {
      PowerFromWhole(k, 1, n);
    }
  }

  // ---------------------------------------------------------------- RelativePow

  ghost function Checked(x: int): Outcome<int> {
    if 0 <= x < TWO256 then Value(x) else Panic
  }

  /** `(x * y + b / 2) / b` on `Uint`, where both the product and the sum may overflow. */
  ghost function ScaledMul(x: int, y: int, b: int): Outcome<int>
    requires b > 0
  {
    if Checked(x * y).Panic? || Checked(x * y + b / 2).Panic? then Panic
    else Checked((x * y + b / 2) / b)
  }

  ghost function RelativePowFrom(x: int, z: int, n: nat, b: int): Outcome<int>
    requires b > 0
    decreases n
  {
    if n == 0 then Value(z)
    else
      var x' := ScaledMul(x, x, b);
      if x'.Panic? then Panic
      else
        var z' := if n % 2 == 1 then ScaledMul(z, x'.value, b) else Value(z);
        if z'.Panic? then Panic else RelativePowFrom(x'.value, z'.value, n / 2, b)
  }

  ghost function RelativePower(x: nat, n: nat, b: nat): Outcome<int> {
    if x == 0 then Value(if n == 0 then b else 0)
    else if b == 0 then (if n / 2 == 0 then Value(if n % 2 == 0 then b else x) else Panic)
    else RelativePowFrom(x, if n % 2 == 0 then b else x, n / 2, b)
  }

  method ScaledMulUint(x: int, y: int, halfOfB: int, b: int) returns (r: Outcome<int>)
    requires b > 0 && halfOfB == b / 2
    ensures r == ScaledMul(x, y, b)
  {
    var product := x * y;
    if !(0 <= product < TWO256) { return Panic; }
    var rounded := product + halfOfB;
    if !(0 <= rounded < TWO256) { return Panic; }
    var q := rounded / b;
    if !(0 <= q < TWO256) { return Panic; }
    return Value(q);
  }

  /** `RelativePow` on unsigned 256-bit integers. A zero base with a loop to run divides by zero. */
  method RelativePow(x0: nat, n0: nat, b: nat) returns (r: Outcome<int>)
    ensures r == RelativePower(x0, n0, b)
  {
    if x0 == 0 {
      return Value(if n0 == 0 then b else 0);
    }
    var x, z, n := x0, x0, n0;
    if n % 2 == 0 {
      z := b;
    }
    var halfOfB := b / 2;
    n := n / 2;
    if b == 0 {
      return if n > 0 then Panic else Value(z);
    }
    while n > 0
      invariant n >= 0
      invariant RelativePowFrom(x, z, n, b) == RelativePower(x0, n0, b)
    {
      var xr := ScaledMulUint(x, x, halfOfB, b);
      if xr.Panic? { return Panic; }
      x := xr.value;
      if n % 2 == 1 {
        var zr := ScaledMulUint(z, x, halfOfB, b);
        if zr.Panic? { return Panic; }
        z := zr.value;
      }
      n := n / 2;
    }
    return Value(z);
  }

  /** A scaled product `v * b`, where the product before unscaling and its rounding must fit 256 bits. */
  ghost function ScaledResult(v: int, b: int): Outcome<int> {
    if v * b * b + b / 2 < TWO256 then Value(v * b) else Panic
  }

  lemma Regroup(x: int, y: int, b: int)
    ensures x * b * (y * b) == x * y * b * b
  {
  }

  lemma Unscale(w: int, b: int)
    requires w >= 0 && b > 0
    ensures (w * b + b / 2) / b == w && 0 <= w <= w * b
  {
    MulMonotone(1, b, w);
    DivUnique(w * b + b / 2, b, w, b / 2);
  }

  lemma ProductNotNegative(x: int, y: int)
    requires x >= 0 && y >= 0
    ensures x * y >= 0
  {
  }

  lemma ScaledMulExact(x: int, y: int, b: int)
    requires b > 0 && x >= 0 && y >= 0
    ensures ScaledMul(x * b, y * b, b) == ScaledResult(x * y, b)
  {
    Regroup(x, y, b);
    ProductNotNegative(x, y);
    ProductNotNegative(x * y, b);
    Unscale(x * y * b, b);
  }

  /** The square and the product of one turn are not larger than the final product. */
  lemma TurnBelowResult(x: int, z: int, n: nat)
    requires x >= 1 && z >= 1 && n >= 1
    ensures 1 <= x * x <= z * Pow(x * x, n)
    ensures 1 <= z * (x * x) <= z * Pow(x * x, n)
  {
    var p := Pow(x * x, n);
    MulMonotone(1, x, x);
    assert x * x >= 1;
    PowNotBelow(x * x, n);
    MulMonotone(x * x, p, z);
    MulMonotone(1, z, x * x);
  }

  lemma {:induction false} PowNotBelow(b: int, n: nat)
    requires b >= 1
    ensures Pow(b, n) >= 1
    ensures n >= 1 ==> Pow(b, n) >= b
  {
    if n > 0 {
      PowNotBelow(b, n - 1);
      MulMonotone(1, Pow(b, n - 1), b);
    }
  }

  lemma ScaledMonotone(u: int, v: int, b: int)
    requires u <= v && b > 0
    ensures ScaledResult(v, b).Value? ==> ScaledResult(u, b).Value?
  {
    MulMonotone(u, v, b);
    MulMonotone(u * b, v * b, b);
  }

  lemma MulAssociative(a: int, b: int, c: int)
    ensures a * (b * c) == a * b * c
  {
  }

  lemma HalvedProduct(x: int, z: int, z': int, n: nat)
    requires z' == if n % 2 == 1 then z * (x * x) else z
    ensures z * Pow(x * x, n) == z' * Pow(x * x * (x * x), n / 2)
  {
    hide Pow;
    var w := x * x;
    PowHalve(w, n);
    MulAssociative(z, w, Pow(w * w, n / 2));
  }

  /** One turn of the loop on multiples of the base. */
  lemma ScaledTurn(x: int, z: int, z': int, n: nat, b: int)
    requires b > 0 && x >= 1 && z >= 1 && n >= 1
    requires z' == if n % 2 == 1 then z * (x * x) else z
    ensures RelativePowFrom(x * b, z * b, n, b)
         == if ScaledResult(x * x, b).Panic? || (n % 2 == 1 && ScaledResult(z', b).Panic?) then Panic
            else RelativePowFrom(x * x * b, z' * b, n / 2, b)
  {
    hide ScaledMul;
    ScaledMulExact(x, x, b);
    if n % 2 == 1 {
      ScaledMulExact(z, x * x, b);
    }
  }

  lemma {:induction false} RelativePowFromExact(x: int, z: int, n: nat, b: int)
    requires b > 0 && x >= 1 && z >= 1 && n >= 1
    ensures RelativePowFrom(x * b, z * b, n, b) == ScaledResult(z * Pow(x * x, n), b)
    decreases n
  {
    hide RelativePowFrom, ScaledResult, Pow;
    var z' := if n % 2 == 1 then z * (x * x) else z;
    var v := z * Pow(x * x, n);
    TurnBelowResult(x, z, n);
    ScaledMonotone(x * x, v, b);
    ScaledMonotone(z * (x * x), v, b);
    ScaledTurn(x, z, z', n, b);
    HalvedProduct(x, z, z', n);
    if n == 1 {
      LastTurn(x, z, b);
    } else {
      RelativePowFromExact(x * x, z', n / 2, b);
    }
  }

  lemma LastTurn(x: int, z: int, b: int)
    requires b > 0
    ensures z * Pow(x * x, 1) == z * (x * x)
    ensures RelativePowFrom(x * x * b, z * (x * x) * b, 0, b) == Value(z * (x * x) * b)
    ensures ScaledResult(z * (x * x), b).Value? ==> ScaledResult(z * (x * x), b) == Value(z * (x * x) * b)
  {
    assert Pow(x * x, 1) == x * x * Pow(x * x, 0);
  }

  /** On multiples of the base nothing is rounded: the result is the exact scaled power, and the call panics
      exactly when the loop runs and that power times the base once more, rounded, leaves 256 bits. */
  lemma {:induction false} RelativePowExact(k: nat, n: nat, b: nat)
    requires b > 0
    ensures RelativePower(k * b, n, b)
         == if k == 0 || n < 2 then Value(Pow(k, n) * b) else ScaledResult(Pow(k, n), b)
  {
    if k == 0 {
      assert n > 0 ==> Pow(0, n) == 0 * Pow(0, n - 1);
    } else {
      assert k * b != 0;
      var z := if n % 2 == 0 then 1 else k;
      assert z * b == if n % 2 == 0 then b else k * b;
      if n < 2 {
        assert Pow(k, n) == z;
      } else {
        PowHalve(k, n);
        RelativePowFromExact(k, z, n / 2, b);
      }
    }
  }
}
