/** The rounding of Doubles is the nearest double, ties to even: order, uniqueness and rounding intervals. */
module Nearest {
  import opened Powers
  import opened Rounding
  import opened Doubles

  /** A positive finite pair in the form js_dtoa and round_to_d use: top bit set, subnormal bits clear. */
  ghost predicate Canonical(m: nat, e: int) {
    && TWO53 / 2 <= m < TWO53
    && e >= -1073
    && (e < -1021 ==> Pow(2, -1021 - e) > 0 && m % Pow(2, -1021 - e) == 0)
  }

  /** The mantissa in units of the last place. */
  function UnitsOf(m: nat, e: int): (n: nat)
    requires e >= -1073
  {
    PowPositive(2, 53 - Precision(e));
    m / Pow(2, 53 - Precision(e))
  }

  lemma CanonicalUnits(m: nat, e: int)
    requires Canonical(m, e)
    ensures 1 <= Precision(e) <= 53
    ensures m == UnitsOf(m, e) * Pow(2, 53 - Precision(e))
    ensures Normalise(UnitsOf(m, e), Precision(e), e) == (m, e)
    ensures Real(m, e) == UnitsOf(m, e) as real * Pw(2, UlpExp(e))
    ensures UnitsOf(m, e) >= 1
  {
    hide Pow, Pw, Real;
    var q := Pow(2, 53 - Precision(e));
    PowPositive(2, 53 - Precision(e));
    PowUnfold(2, 0);
    var n := UnitsOf(m, e);
    assert m == n * q;
    NormaliseReal(n, Precision(e), e);
  }

  /** The exponent of a canonical pair is the binary exponent of its value. */
  lemma CanonicalExp(m: nat, e: int)
    requires Canonical(m, e)
    ensures Real(m, e) > 0.0 && IsExp2(Real(m, e), e)
  {
    hide Pow, Pw;
    Two53();
    PwNat(2, 53);
    PwNat(2, 52);
    PwAdd(2, 53, e - 53);
    PwAdd(2, 52, e - 53);
    assert 53 + (e - 53) == e && 52 + (e - 53) == e - 1;
    ScaleRange(m as real, Pow(2, 52) as real, Pow(2, 53) as real, Pw(2, e - 53), Pw(2, e - 1), Pw(2, e));
  }

  /** Equal values are equal pairs. */
  lemma CanonicalUnique(m: nat, e: int, m': nat, e': int)
    requires Canonical(m, e) && Canonical(m', e') && Real(m, e) == Real(m', e')
    ensures m == m' && e == e'
  {
    hide Pow, Pw;
    CanonicalExp(m, e);
    CanonicalExp(m', e');
    Exp2Unique(Real(m, e), e, e');
    CancelRight(m as real, m' as real, Pw(2, e - 53));
  }

  lemma CancelRight(a: real, b: real, p: real)
    requires p > 0.0 && a * p == b * p
    ensures a == b
  {
    if a < b { RMulStrict(a, b, p); }
    if b < a { RMulStrict(b, a, p); }
  }

  /** Rounding yields zero or a canonical pair. */
  lemma ToDoubleCanonical(mode: Mode, x: real)
    requires x > 0.0
    ensures ToDouble(mode, x).0 == 0 || Canonical(ToDouble(mode, x).0, ToDouble(mode, x).1)
  {
    hide Pow, Pw, Exp2, Units;
    UnitsBound(mode, x);
    var k, n := Exp2(x), Units(mode, x);
    var p := Precision(k);
    PowUnfold(2, 0);
    if p >= 1 {
      NormaliseCanonical(n, p, k);
    } else if p == 0 {
      Two53();
      assert n * TWO53 == 0 || n * TWO53 == TWO53;
      if n != 0 { PowDivides(52); }
    } else {
      assert n == 0;
    }
  }

  lemma NormaliseCanonical(n: nat, p: int, k: int)
    requires p == Precision(k) && 1 <= p && TWO53 / 2 <= n * Pow(2, 53 - p) <= TWO53
    ensures Canonical(Normalise(n, p, k).0, Normalise(n, p, k).1)
  {
    hide Pow;
    var q := Pow(2, 53 - p);
    PowPositive(2, 53 - p);
    var m := n * q;
    if m >= TWO53 {
      if k + 1 < -1021 { PowDivides(-1021 - (k + 1)); }
    } else if k < -1021 {
      assert m == n * q + 0;
      DivModUnique(m, q, n, 0);
    }
  }

  lemma PowDivides(j: nat)
    requires j <= 52
    ensures Pow(2, j) > 0 && (TWO53 / 2) % Pow(2, j) == 0
  {
    hide Pow;
    Two53();
    PowPositive(2, j);
    PowAdd(2, 52 - j, j);
    DivModUnique(TWO53 / 2, Pow(2, j), Pow(2, 52 - j), 0);
  }

  // ----- nearest -----

  /** `x` in units of its own last place. */
  ghost function InUnits(x: real): real
    requires x > 0.0
  {
    x * Pw(2, -UlpExp(Exp2(x)))
  }

  ghost function Ulp(x: real): (u: real)
    requires x > 0.0
    ensures u > 0.0
  {
    Pw(2, UlpExp(Exp2(x)))
  }

  lemma UnitsBack(x: real)
    requires x > 0.0
    ensures x == InUnits(x) * Ulp(x)
  {
    hide Pw, Exp2;
    var j := UlpExp(Exp2(x));
    PwAdd(2, -j, j);
    RMulAssoc(x, Pw(2, -j), Pw(2, j));
  }

  lemma Distance(y: real, u: real, n: real, x: real, r: real)
    requires u > 0.0 && x == y * u && r == n * u
    ensures Abs(x - r) == Abs(y - n) * u
  {
    var d := y - n;
    assert x - r == d * u;
    if d < 0.0 { RMulStrict(d, 0.0, u); } else { RMulMono(0.0, d, u); }
  }

  /** No multiple of a unit is closer than the rounded one; an equally close one means the even was taken. */
  lemma NearestOnGrid(x: real, y: real, u: real, n: int, j: int, r: real, d: real)
    requires u > 0.0 && y >= 0.0 && x == y * u && n == Round(NearestEven, y)
    requires r == n as real * u && d == j as real * u
    ensures Abs(x - r) <= Abs(x - d)
    ensures Abs(x - r) == Abs(x - d) && r != d ==> n % 2 == 0
  {
    hide Round, Abs;
    Distance(y, u, n as real, x, r);
    Distance(y, u, j as real, x, d);
    NearestIsClosest(y, j);
    RMulMono(Abs(y - n as real), Abs(y - j as real), u);
    if Abs(x - r) == Abs(x - d) && r != d {
      CancelRight(Abs(y - n as real), Abs(y - j as real), u);
      TieIsEven(y, n, j);
    }
  }

  lemma TieIsEven(y: real, n: int, j: int)
    requires y >= 0.0 && n == Round(NearestEven, y) && j != n
    requires Abs(y - n as real) == Abs(y - j as real)
    ensures n % 2 == 0
  {
    hide Round;
    NearestEvenUnique(y, n);
    assert j <= n - 1 || j >= n + 1;
  }

  /**
    * The nearest double: no double `n * 2^(q-53)` is closer to `x` than the value `x` rounds to, and when
    * another one is exactly as close the rounded value is the even multiple of the unit.
    */
  lemma NearestDouble(x: real, n: nat, q: int)
    requires x > 0.0 && n <= TWO53 && q >= -1021
    ensures
      var (m, e) := ToDouble(NearestEven, x);
      var d := n as real * Pw(2, q - 53);
      && Abs(x - Real(m, e)) <= Abs(x - d)
      && (Abs(x - Real(m, e)) == Abs(x - d) && Real(m, e) != d ==> Units(NearestEven, x) % 2 == 0)
  {
    hide Pw, Exp2, Round, ToDouble, Real, Abs;
    ToDoubleReal(NearestEven, x);
    UnitsBack(x);
    UnitsRange(x);
    var (m, e) := ToDouble(NearestEven, x);
    var k, u := UlpExp(Exp2(x)), Ulp(x);
    var d := n as real * Pw(2, q - 53);
    if q - 53 >= k {
      GridMultiple(n, q - 53, k);
      NearestOnGrid(x, InUnits(x), u, Units(NearestEven, x), n * Pow(2, q - 53 - k), Real(m, e), d);
    } else {
      var c := BelowBinade(x, n, q, d);
      NearestOnGrid(x, InUnits(x), u, Units(NearestEven, x), TWO53 / 2, Real(m, e), c);
      FartherBelow(x, Real(m, e), c, d);
    }
  }

  lemma FartherBelow(x: real, r: real, c: real, d: real)
    requires d <= c <= x && Abs(x - r) <= Abs(x - c)
    ensures Abs(x - r) <= Abs(x - d)
    ensures Abs(x - r) == Abs(x - d) ==> c == d
  {}

  lemma GridMultiple(n: nat, i: int, k: int)
    requires i >= k
    ensures n as real * Pw(2, i) == (n * Pow(2, i - k)) as real * Pw(2, k)
  {
    hide Pw, Pow;
    PwAdd(2, i - k, k);
    PwNat(2, i - k);
    RMulAssoc(n as real, Pow(2, i - k) as real, Pw(2, k));
    assert (n * Pow(2, i - k)) as real == n as real * Pow(2, i - k) as real;
  }

  /** A double with a smaller unit lies at or below the start of `x`'s binade, which is on `x`'s grid. */
  lemma BelowBinade(x: real, n: nat, q: int, d: real) returns (c: real)
    requires x > 0.0 && n <= TWO53 && q >= -1021 && q - 53 < UlpExp(Exp2(x)) && d == n as real * Pw(2, q - 53)
    ensures c == (TWO53 / 2) as real * Ulp(x) && d <= c <= x
  {
    hide Pw, Pow, Exp2;
    var k := Exp2(x);
    assert UlpExp(k) == k - 53 && q <= k - 1;
    Two53();
    PwNat(2, 53);
    PwNat(2, 52);
    PwAdd(2, 53, q - 53);
    PwAdd(2, 52, k - 53);
    assert 53 + (q - 53) == q && 52 + (k - 53) == k - 1;
    PwMono(2, q, k - 1);
    c := Pw(2, k - 1);
    assert d <= Pw(2, q) by { BelowTop(n as real, TWO53 as real, Pw(2, q - 53), d, Pw(2, q)); }
  }

  lemma BelowTop(n: real, t: real, p: real, d: real, top: real)
    requires n <= t && p > 0.0 && d == n * p && top == t * p
    ensures d <= top
  {
    RMulMono(n, t, p);
  }

  // ----- order -----

  /** The value `x` rounds to. */
  ghost function Rounded(mode: Mode, x: real): (r: real)
    requires x >= 0.0
    ensures r >= 0.0
  {
    Real(ToDouble(mode, x).0, ToDouble(mode, x).1)
  }

  /** Rounding does not leave the binade, except to its upper end. */
  lemma RoundedRange(mode: Mode, x: real)
    requires x > 0.0
    ensures Rounded(mode, x) <= Pw(2, UlpExp(Exp2(x)) + 53)
    ensures Exp2(x) >= -1021 ==> Pw(2, Exp2(x) - 1) <= Rounded(mode, x)
  {
    hide Pw, Pow, Exp2, Units, ToDouble, Real;
    ToDoubleReal(mode, x);
    UnitsBound(mode, x);
    Two53();
    var k, n := Exp2(x), Units(mode, x);
    var j, q := UlpExp(k), Pow(2, 53 - Precision(k));
    PowPositive(2, 53 - Precision(k));
    PowUnfold(2, 0);
    MulMono(n, n, 1, q);
    PwNat(2, 53);
    PwAdd(2, 53, j);
    BelowTop(n as real, TWO53 as real, Pw(2, j), Rounded(mode, x), Pw(2, j + 53));
    if k >= -1021 {
      PwNat(2, 52);
      PwAdd(2, 52, j);
      BelowTop((TWO53 / 2) as real, n as real, Pw(2, j), Pw(2, k - 1), Rounded(mode, x));
    }
  }

  /** Rounding preserves order. */
  lemma RoundedMono(mode: Mode, x: real, y: real)
    requires 0.0 < x <= y
    ensures Rounded(mode, x) <= Rounded(mode, y)
  {
    hide Pw, Exp2, Round, ToDouble, Real;
    ToDoubleReal(mode, x);
    ToDoubleReal(mode, y);
    var i, j := UlpExp(Exp2(x)), UlpExp(Exp2(y));
    Exp2Mono(x, y);
    if i == j {
      UnitsRange(x);
      UnitsRange(y);
      SameFactor(y, Pw(2, -i), Pw(2, -j));
      BelowTop(x, y, Pw(2, -i), InUnits(x), InUnits(y));
      RoundMono(mode, InUnits(x), InUnits(y));
      BelowTop(Units(mode, x) as real, Units(mode, y) as real, Pw(2, i), Rounded(mode, x), Rounded(mode, y));
    } else {
      RoundedRange(mode, x);
      RoundedRange(mode, y);
      PwMono(2, i + 53, Exp2(y) - 1);
    }
  }

  lemma SameFactor(y: real, p: real, p': real)
    requires p == p'
    ensures y * p == y * p'
  {}

  lemma Exp2Mono(x: real, y: real)
    requires 0.0 < x <= y
    ensures Exp2(x) <= Exp2(y)
  {
    hide Pw;
    if Exp2(y) < Exp2(x) { PwMono(2, Exp2(y), Exp2(x) - 1); }
  }

  /** The reals that round to one canonical pair form a convex set. */
  lemma RoundedConvex(mode: Mode, x: real, y: real, z: real, m: nat, e: int)
    requires 0.0 < x <= y <= z && Canonical(m, e)
    requires ToDouble(mode, x) == (m, e) && ToDouble(mode, z) == (m, e)
    ensures ToDouble(mode, y) == (m, e)
  {
    hide Pw, ToDouble, Real, Canonical;
    RoundedMono(mode, x, y);
    RoundedMono(mode, y, z);
    SameValue(mode, y, m, e);
  }

  /** A real rounds to the canonical pair of its rounded value. */
  lemma SameValue(mode: Mode, y: real, m: nat, e: int)
    requires y > 0.0 && Canonical(m, e)
    ensures ToDouble(mode, y) == (m, e) <==> Rounded(mode, y) == Real(m, e)
  {
    hide Pw, ToDouble, Canonical;
    var (m', e') := ToDouble(mode, y);
    ToDoubleCanonical(mode, y);
    CanonicalExp(m, e);
    if Rounded(mode, y) == Real(m, e) {
      if m' == 0 { ZeroReal(e'); }
      CanonicalUnique(m', e', m, e);
    }
  }

  lemma ZeroReal(e: int)
    ensures Real(0, e) == 0.0
  {}

  // ----- the interval of reals that round to a double -----

  /** Half the unit in the last place of a pair. */
  ghost function HalfUlp(e: int): (h: real)
    ensures h > 0.0
  {
    Pw(2, UlpExp(e) - 1)
  }

  /** Within half a unit of the pair's value, the ends belonging to an even mantissa. */
  ghost predicate WithinHalf(w: real, m: nat, e: int)
    requires e >= -1073
  {
    var d := Abs(w - Real(m, e));
    d < HalfUlp(e) || (d == HalfUlp(e) && UnitsOf(m, e) % 2 == 0)
  }

  /** The spacing of doubles is the same on both sides of the pair. */
  predicate Symmetric(m: nat, e: int) {
    m != TWO53 / 2 || e <= -1021
  }

  lemma HalfUlpTwice(e: int)
    ensures Pw(2, UlpExp(e)) == 2.0 * HalfUlp(e)
  {
    hide Pw;
    PwSucc(2, UlpExp(e) - 1);
  }

  /** The reals that round to a double with even spacing are exactly those within half a unit. */
  lemma IntervalSymmetric(w: real, m: nat, e: int)
    requires w > 0.0 && Canonical(m, e) && Symmetric(m, e)
    ensures ToDouble(NearestEven, w) == (m, e) <==> WithinHalf(w, m, e)
  {
    hide Pw, Exp2, ToDouble, Real, Canonical, Units, UnitsOf, HalfUlp;
    SameValue(NearestEven, w, m, e);
    var i, j := UlpExp(Exp2(w)), UlpExp(e);
    if i == j {
      SameGrid(w, m, e);
    } else if i > j {
      OtherGridAbove(w, m, e);
    } else {
      OtherGridBelow(w, m, e);
    }
  }

  lemma SameGrid(w: real, m: nat, e: int)
    requires w > 0.0 && Canonical(m, e) && UlpExp(Exp2(w)) == UlpExp(e)
    ensures Rounded(NearestEven, w) == Real(m, e) <==> WithinHalf(w, m, e)
  {
    hide Pw, Exp2, ToDouble, Real, Canonical, Round, UnitsOf, HalfUlp, Abs;
    ToDoubleReal(NearestEven, w);
    CanonicalUnits(m, e);
    UnitsBack(w);
    UnitsRange(w);
    HalfUlpTwice(e);
    var y, u, n := InUnits(w), Ulp(w), UnitsOf(m, e);
    Distance(y, u, n as real, w, Real(m, e));
    NearestEvenUnique(y, n);
    if Rounded(NearestEven, w) == Real(m, e) {
      CancelRight(Units(NearestEven, w) as real, n as real, u);
    }
    HalfScaled(y, n, u, HalfUlp(e), Abs(w - Real(m, e)));
  }

  lemma HalfScaled(y: real, n: int, u: real, h: real, d: real)
    requires u > 0.0 && u == 2.0 * h && d == Abs(y - n as real) * u
    ensures IsNearestEven(y, n) <==> d < h || (d == h && n % 2 == 0)
  {
    var a := Abs(y - n as real);
    if a < 0.5 { RMulStrict(a, 0.5, u); assert a * u < 0.5 * u; }
    if a > 0.5 { RMulStrict(0.5, a, u); assert a * u > 0.5 * u; }
    if a == 0.5 { assert a * u == 0.5 * u; }
  }

  /** A real on a coarser grid is more than half a unit above. */
  lemma OtherGridAbove(w: real, m: nat, e: int)
    requires w > 0.0 && Canonical(m, e) && UlpExp(Exp2(w)) > UlpExp(e)
    ensures Rounded(NearestEven, w) != Real(m, e) && !WithinHalf(w, m, e)
  {
    hide Pw, Exp2, ToDouble, Real, Round, UnitsOf, HalfUlp, Pow;
    var k, j := Exp2(w), UlpExp(e);
    RoundedRange(NearestEven, w);
    var top := BelowOwnTop(m, e);
    PwMono(2, j + 53, k - 1);
    HalfUlpTwice(e);
  }

  /** The value is at least a unit below the end of its grid. */
  lemma BelowOwnTop(m: nat, e: int) returns (top: real)
    requires Canonical(m, e)
    ensures top == Pw(2, UlpExp(e) + 53) && Real(m, e) + Pw(2, UlpExp(e)) <= top
  {
    hide Pw, Pow, Real;
    CanonicalUnits(m, e);
    var j, n, q := UlpExp(e), UnitsOf(m, e), Pow(2, 53 - Precision(e));
    PowPositive(2, 53 - Precision(e));
    MulMono(n, n, 1, q);
    Two53();
    PwNat(2, 53);
    PwAdd(2, 53, j);
    top := Pw(2, j + 53);
    NextBelow(n as real, TWO53 as real, Pw(2, j), Real(m, e), top);
  }

  lemma NextBelow(n: real, t: real, p: real, d: real, top: real)
    requires n + 1.0 <= t && p > 0.0 && d == n * p && top == t * p
    ensures d + p <= top
  {
    RMulMono(n + 1.0, t, p);
    assert (n + 1.0) * p == n * p + p;
  }

  /** A real on a finer grid is more than half a unit below, unless the pair starts its binade. */
  lemma OtherGridBelow(w: real, m: nat, e: int)
    requires w > 0.0 && Canonical(m, e) && Symmetric(m, e) && UlpExp(Exp2(w)) < UlpExp(e)
    ensures Rounded(NearestEven, w) != Real(m, e) && !WithinHalf(w, m, e)
  {
    hide Pw, Exp2, ToDouble, Round, UnitsOf, HalfUlp, Pow;
    var k, j := Exp2(w), UlpExp(e);
    RoundedRange(NearestEven, w);
    assert j == e - 53 && k <= e - 1;
    Two53();
    PwNat(2, 52);
    PwAdd(2, 52, j);
    NextBelow((TWO53 / 2) as real, m as real, Pw(2, j), Pw(2, e - 1), Real(m, e));
    PwMono(2, UlpExp(k) + 53, e - 1);
    PwMono(2, k, e - 1);
    HalfUlpTwice(e);
  }

  // ----- powers of two: the spacing below is half the spacing above -----

  /** Exactly the reals from a quarter unit below a power of two to half a unit above round to it. */
  lemma PowerInterval(w: real, e: int)
    requires e >= -1020 && w > 0.0
    ensures ToDouble(NearestEven, w) == (TWO53 / 2, e) <==>
      Pw(2, e - 1) - Pw(2, e - 55) <= w <= Pw(2, e - 1) + Pw(2, e - 54)
  {
    hide Pw, ToDouble, Real, Canonical, Pow;
    var m, x := TWO53 / 2, Pw(2, e - 1);
    PowerCanonical(e);
    PwSucc(2, e - 1);
    assert e - 1 + 1 == e;
    if w < x {
      if w < x - Pw(2, e - 55) {
        PowerTooLow(w, e);
      } else {
        PowerLowEnd(e);
        PowerItself(e);
        RoundedConvex(NearestEven, x - Pw(2, e - 55), w, x, m, e);
      }
    } else {
      SameValue(NearestEven, w, m, e);
      if w < Pw(2, e) {
        Exp2Unique(w, Exp2(w), e);
        PowerSameGrid(w, e);
      } else {
        PowerTooHigh(w, e);
      }
    }
  }

  /** Below the lower end the double below the power of two is closer. */
  lemma PowerTooLow(w: real, e: int)
    requires e >= -1020 && 0.0 < w < Pw(2, e - 1) - Pw(2, e - 55)
    ensures ToDouble(NearestEven, w) != (TWO53 / 2, e)
  {
    hide Pw, ToDouble, Real, Pow;
    PowerCanonical(e);
    PwSucc(2, e - 55);
    assert e - 55 + 1 == e - 54 && (e - 1) - 53 == e - 54;
    Two53();
    PwNat(2, 53);
    PwAdd(2, 53, e - 54);
    assert 53 + (e - 54) == e - 1;
    OneLess(Pw(2, e - 54), Pw(2, e - 1));
    NearestDouble(w, TWO53 - 1, e - 1);
  }

  lemma OneLess(u: real, x: real)
    requires x == TWO53 as real * u
    ensures (TWO53 - 1) as real * u == x - u
  {}

  lemma PowerTooHigh(w: real, e: int)
    requires e >= -1020 && w >= Pw(2, e)
    ensures w > Pw(2, e - 1) + Pw(2, e - 54) && Rounded(NearestEven, w) != Real(TWO53 / 2, e)
  {
    hide Pw, ToDouble, Real, Canonical, Pow;
    PowerCanonical(e);
    PowerCanonical(e + 1);
    PowerItself(e + 1);
    assert e + 1 - 1 == e;
    SameValue(NearestEven, Pw(2, e), TWO53 / 2, e + 1);
    RoundedMono(NearestEven, Pw(2, e), w);
    PwSucc(2, e - 1);
    assert e - 1 + 1 == e;
    PwStrict(2, e - 54, e - 1);
  }

  lemma PowerCanonical(e: int)
    requires e >= -1020
    ensures Canonical(TWO53 / 2, e) && Real(TWO53 / 2, e) == Pw(2, e - 1)
  {
    hide Pw, Pow;
    Two53();
    PwNat(2, 52);
    PwAdd(2, 52, e - 53);
    assert 52 + (e - 53) == e - 1;
  }

  lemma PowerSameGrid(w: real, e: int)
    requires e >= -1020 && w >= Pw(2, e - 1) && Exp2(w) == e
    ensures w > 0.0 && (Rounded(NearestEven, w) == Real(TWO53 / 2, e) <==> w <= Pw(2, e - 1) + Pw(2, e - 54))
  {
    hide Pw, Exp2, ToDouble, Real, Canonical, Round;
    PowerCanonical(e);
    SameGrid(w, TWO53 / 2, e);
    assert UlpExp(e) - 1 == e - 54;
  }

  lemma PowerItself(e: int)
    requires e >= -1020
    ensures ToDouble(NearestEven, Pw(2, e - 1)) == (TWO53 / 2, e)
  {
    hide Pw, ToDouble, Real, Canonical;
    var w := Pw(2, e - 1);
    PowerCanonical(e);
    PwSucc(2, e - 1);
    assert e - 1 + 1 == e;
    Exp2Unique(w, Exp2(w), e);
    PowerSameGrid(w, e);
    SameValue(NearestEven, w, TWO53 / 2, e);
  }

  /** The lower end: halfway to the double below, and the power of two is the even one. */
  lemma PowerLowEnd(e: int)
    requires e >= -1020
    ensures Pw(2, e - 1) - Pw(2, e - 55) > 0.0
    ensures ToDouble(NearestEven, Pw(2, e - 1) - Pw(2, e - 55)) == (TWO53 / 2, e)
  {
    hide Pw, ToDouble, Real, Canonical, Exp2, Round, Pow;
    var w, k, t := Pw(2, e - 1) - Pw(2, e - 55), e - 1, Pw(2, e - 55);
    PwMono(2, e - 55, e - 3);
    PwSucc(2, e - 3);
    PwSucc(2, e - 2);
    assert e - 3 + 1 == e - 2 && e - 2 + 1 == e - 1;
    assert IsExp2(w, k);
    Exp2Unique(w, Exp2(w), k);
    ToDoubleReal(NearestEven, w);
    assert UlpExp(k) == e - 54;
    PwSucc(2, e - 55);
    assert e - 55 + 1 == e - 54;
    Two53();
    PwNat(2, 53);
    PwAdd(2, 53, e - 54);
    assert 53 + (e - 54) == e - 1;
    PwAdd(2, -(e - 54), e - 54);
    LowEndUnits(w, Pw(2, e - 54), Pw(2, -(e - 54)), Pw(2, e - 1), t, InUnits(w), Pw(2, 0));
    NearestEvenUnique(InUnits(w), TWO53);
    PowerCanonical(e);
    SameValue(NearestEven, w, TWO53 / 2, e);
  }

  lemma LowEndUnits(w: real, u: real, v: real, x: real, t: real, y: real, one: real)
    requires u > 0.0 && u == 2.0 * t && w == x - t && x == TWO53 as real * u && y == w * v && one == v * u && one == 1.0
    ensures y == TWO53 as real - 0.5
  {
    RMulAssoc(w, v, u);
    assert y * u == w * one;
    assert w * one == w;
    assert (TWO53 as real - 0.5) * u == TWO53 as real * u - 0.5 * u;
    CancelRight(y, TWO53 as real - 0.5, u);
  }
}
