/**
  * Finite doubles as pairs `(m, e)` standing for `m * 2^(e - 53)`, and the rounding of a real to such a pair
  * that round_to_d of src/dtoa.c performs: 53 bits, fewer below exponent -1021.
  */
module Doubles {
  import opened Powers
  import opened Rounding

  const TWO53: nat := 0x20_0000_0000_0000

  lemma Two53()
    ensures Pow(2, 53) == TWO53 && Pow(2, 52) == TWO53 / 2
  {
    SquareIsPow(2, 53);
    SquareIsPow(2, 52);
    assert Square(2, 53) == TWO53 && Square(2, 52) == TWO53 / 2;
  }

  /** The real number a pair stands for. */
  ghost function Real(m: nat, e: int): (x: real)
    ensures x >= 0.0
  {
    m as real * Pw(2, e - 53)
  }

  // ----- binary exponents of reals -----

  /** `k` is the exponent of `x`: 2^(k-1) <= x < 2^k. */
  ghost predicate IsExp2(x: real, k: int) {
    Pw(2, k - 1) <= x < Pw(2, k)
  }

  lemma Exp2Unique(x: real, j: int, k: int)
    requires IsExp2(x, j) && IsExp2(x, k)
    ensures j == k
  {
    hide Pw;
    if j < k { PwMono(2, j, k - 1); }
    if k < j { PwMono(2, k, j - 1); }
  }

  lemma {:induction false} PowAbove(n: nat)
    ensures Pow(2, n) > n
  {
    if n > 0 { PowAbove(n - 1); }
  }

  /** Some power of two lies above any real, and one below any positive real. */
  lemma PowerAbove(x: real) returns (k: int)
    requires x > 0.0
    ensures x < Pw(2, k)
  {
    var n := x.Floor + 1;
    PowAbove(n);
    PwNat(2, n);
    k := n;
  }

  lemma PowerBelow(x: real) returns (k: int)
    requires x > 0.0
    ensures Pw(2, k) <= x
  {
    hide Pw;
    var j := PowerAbove(1.0 / x);
    k := -j;
    PwAdd(2, j, -j);
    InverseBelow(x, 1.0 / x, Pw(2, j), Pw(2, k), Pw(2, 0));
  }

  lemma InverseBelow(x: real, y: real, p: real, q: real, one: real)
    requires x > 0.0 && y == 1.0 / x && p > 0.0 && y < p && one == p * q && one == 1.0
    ensures q <= x
  {
    RMulStrict(y, p, x);
    Reciprocal(x, y, one);
    if q > x { RMulStrict(x, q, p); }
  }

  lemma Reciprocal(x: real, y: real, one: real)
    requires x > 0.0 && y == one / x
    ensures y * x == one
  {}

  lemma {:induction false} FindExp2(x: real, low: int, high: int) returns (k: int)
    requires Pw(2, low) <= x < Pw(2, high)
    ensures IsExp2(x, k)
    decreases high - low
  {
    hide Pw;
    if high <= low { PwMono(2, high, low); }
    if high == low + 1 {
      k := high;
    } else if x < Pw(2, high - 1) {
      k := FindExp2(x, low, high - 1);
    } else {
      k := high;
    }
  }

  lemma Exp2Exists(x: real)
    requires x > 0.0
    ensures exists k :: IsExp2(x, k)
  {
    var low := PowerBelow(x);
    var high := PowerAbove(x);
    var k := FindExp2(x, low, high);
  }

  ghost function Exp2(x: real): (k: int)
    requires x > 0.0
    ensures IsExp2(x, k)
  {
    Exp2Exists(x);
    var k :| IsExp2(x, k);
    k
  }

  // ----- rounding to a double -----

  /** The number of mantissa bits round_to_d keeps at exponent `k`; zero or less far below the subnormals. */
  function Precision(k: int): (p: int)
    ensures p <= 53
  {
    if k < -1021 then 53 - (-1021 - k) else 53
  }

  /** The shift back to 53 bits and the carry to the next exponent. */
  function Normalise(n: nat, p: int, k: int): (d: (nat, int))
    requires p <= 53
  {
    var m := n * Pow(2, 53 - p);
    if m >= TWO53 then (m / 2, k + 1) else (m, k)
  }

  /** The exponent of the unit in the last place at exponent `k`. */
  function UlpExp(k: int): int {
    (if k < -1021 then -1021 else k) - 53
  }

  /** The integer multiple of the unit in the last place that `x` rounds to. */
  ghost function Units(mode: Mode, x: real): (n: nat)
    requires x > 0.0
  {
    Round(mode, x * Pw(2, -UlpExp(Exp2(x))))
  }

  /** The pair a non-negative real rounds to. */
  ghost function ToDouble(mode: Mode, x: real): (d: (nat, int))
    requires x >= 0.0
  {
    if x == 0.0 then (0, 0)
    else Normalise(Units(mode, x), Precision(Exp2(x)), Exp2(x))
  }

  /** The rounded value is a multiple of the unit. */
  lemma ToDoubleReal(mode: Mode, x: real)
    requires x > 0.0
    ensures Real(ToDouble(mode, x).0, ToDouble(mode, x).1) == Units(mode, x) as real * Pw(2, UlpExp(Exp2(x)))
  {
    hide Pw, Units, Exp2, Real, Normalise, Pow;
    UnitsBound(mode, x);
    NormaliseReal(Units(mode, x), Precision(Exp2(x)), Exp2(x));
  }

  lemma NormaliseReal(n: nat, p: int, k: int)
    requires p == Precision(k) && n * Pow(2, 53 - p) <= TWO53
    ensures Real(Normalise(n, p, k).0, Normalise(n, p, k).1) == n as real * Pw(2, UlpExp(k))
  {
    hide Pw, Pow;
    var q := Pow(2, 53 - p);
    var m := n * q;
    PwNat(2, 53 - p);
    PwAdd(2, 53 - p, k - 53);
    assert 53 - p + (k - 53) == UlpExp(k);
    RMulAssoc(n as real, q as real, Pw(2, k - 53));
    assert m as real == n as real * q as real;
    if m >= TWO53 {
      PwSucc(2, k - 53);
      assert k - 53 + 1 == k + 1 - 53;
      Halve(m, Pw(2, k - 53), Pw(2, k + 1 - 53));
    }
  }

  lemma Halve(m: nat, p: real, p2: real)
    requires m % 2 == 0 && p2 == 2.0 * p
    ensures (m / 2) as real * p2 == m as real * p
  {
    var h := m / 2;
    assert m as real == 2.0 * h as real;
    assert (2.0 * h as real) * p == h as real * (2.0 * p);
  }

  /** `x` in units of its last place lies between the powers of two around its precision. */
  lemma UnitsRange(x: real)
    requires x > 0.0
    ensures
      var k := Exp2(x);
      Pw(2, Precision(k) - 1) <= x * Pw(2, -UlpExp(k)) < Pw(2, Precision(k))
  {
    hide Pw, Exp2;
    var k := Exp2(x);
    var p, j := Precision(k), -UlpExp(k);
    var w := Pw(2, j);
    PwAdd(2, k, j);
    PwAdd(2, k - 1, j);
    assert k + j == p && k - 1 + j == p - 1;
    ScaleRange(x, Pw(2, k - 1), Pw(2, k), w, Pw(2, p - 1), Pw(2, p));
  }

  lemma ScaleRange(x: real, a: real, b: real, w: real, aw: real, bw: real)
    requires a <= x < b && w > 0.0 && aw == a * w && bw == b * w
    ensures aw <= x * w < bw
  {
    RMulStrict(x, b, w);
    RMulMono(a, x, w);
  }

  lemma RoundSame(mode: Mode, x: real, y: real)
    requires x == y && x >= 0.0
    ensures Round(mode, x) == Round(mode, y)
  {}

  lemma UnitsIs(mode: Mode, x: real, k: int, y: real)
    requires x > 0.0 && k == Exp2(x) && y == x * Pw(2, -UlpExp(k)) && y >= 0.0
    ensures Units(mode, x) == Round(mode, y)
  {
    hide Round;
    var z := x * Pw(2, -UlpExp(Exp2(x)));
    RoundSame(mode, y, z);
  }

  lemma UnitsBound(mode: Mode, x: real)
    requires x > 0.0
    ensures
      var p := Precision(Exp2(x));
      var m := Units(mode, x) * Pow(2, 53 - p);
      m <= TWO53 && (p >= 1 ==> m >= TWO53 / 2) && (p < 0 ==> Units(mode, x) == 0)
  {
    hide Pw, Pow, Exp2, Round;
    UnitsRange(x);
    var k := Exp2(x);
    var p := Precision(k);
    var y := x * Pw(2, -UlpExp(k));
    UnitsIs(mode, x, k, y);
    if p >= 0 {
      RoundRange(mode, y, p);
      ShiftRange(Round(mode, y), p);
    } else {
      PwMono(2, p, -1);
      PwSucc(2, -1);
      RoundSmall(mode, y);
    }
  }

  /** Rounding stays between the powers of two around a real. */
  lemma RoundRange(mode: Mode, y: real, p: nat)
    requires Pw(2, p - 1) <= y < Pw(2, p)
    ensures Round(mode, y) <= Pow(2, p)
    ensures p >= 1 ==> Pow(2, p - 1) <= Round(mode, y)
  {
    hide Pw, Pow, Round;
    PwNat(2, p);
    RoundMono(mode, y, Pow(2, p) as real);
    RoundInt(mode, Pow(2, p));
    if p >= 1 {
      PwNat(2, p - 1);
      RoundMono(mode, Pow(2, p - 1) as real, y);
      RoundInt(mode, Pow(2, p - 1));
    }
  }

  lemma ShiftRange(n: nat, p: nat)
    requires p <= 53 && n <= Pow(2, p) && (p >= 1 ==> Pow(2, p - 1) <= n)
    ensures n * Pow(2, 53 - p) <= TWO53
    ensures p >= 1 ==> n * Pow(2, 53 - p) >= TWO53 / 2
  {
    hide Pow;
    Two53();
    var q := Pow(2, 53 - p);
    PowAdd(2, p, 53 - p);
    MulMono(n, Pow(2, p), q, q);
    if p >= 1 {
      PowAdd(2, p - 1, 53 - p);
      MulMono(Pow(2, p - 1), n, q, q);
    }
  }

  lemma RoundSmall(mode: Mode, y: real)
    requires 0.0 <= y < 0.5
    ensures Round(mode, y) == 0
  {}
}
