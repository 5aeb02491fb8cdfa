/**
  * The digit search of js_dtoa's free format: which decimals it tries, and why the one it keeps reads back,
  * is shortest and is closest.
  */
module Shortest {
  import opened Powers
  import opened Rounding
  import opened Doubles
  import opened Nearest

  /** `mant * radix^(exp - digits)`: `digits` digits, the first of them `exp` places left of the point. */
  datatype Decimal = Decimal(mant: nat, digits: int, exp: int)

  /** `v * r^k`. */
  ghost function Shifted(v: real, r: nat, k: int): (y: real)
    requires r >= 1
    ensures v >= 0.0 ==> y >= 0.0
    ensures v > 0.0 ==> y > 0.0
  {
    PositiveProduct(v, Pw(r, k));
    v * Pw(r, k)
  }

  lemma PositiveProduct(v: real, p: real)
    requires p > 0.0
    ensures v >= 0.0 ==> v * p >= 0.0
    ensures v > 0.0 ==> v * p > 0.0
  {}

  /** The value of a decimal. */
  ghost function DecValue(d: Decimal, r: nat): (x: real)
    requires r >= 1
    ensures x >= 0.0
  {
    Shifted(d.mant as real, r, d.exp - d.digits)
  }

  /** The decimal reads back as the double. */
  ghost predicate ReadsBack(d: Decimal, r: nat, m: nat, e: int)
    requires r >= 1
  {
    ToDouble(NearestEven, DecValue(d, r)) == (m, e)
  }

  /** `x` rounded to `p` digits before exponent `k`. */
  ghost function RoundedDigits(x: real, r: nat, p: int, k: int): (n: nat)
    requires r >= 1 && x >= 0.0
  {
    Round(NearestEven, Shifted(x, r, p - k))
  }

  /** One candidate: `x` to `p` digits, with the next exponent when the digits overflow. */
  ghost function Candidate(x: real, r: nat, p: nat, e0: int): (d: Decimal)
    requires r >= 1 && x >= 0.0
  {
    var n := RoundedDigits(x, r, p, e0);
    if n < Pow(r, p) then Decimal(n, p, e0) else Decimal(RoundedDigits(x, r, p, e0 + 1), p, e0 + 1)
  }

  /** Trailing zero digits dropped. */
  function Strip(d: Decimal, r: nat): (s: Decimal)
    requires r >= 2
    decreases d.mant
  {
    if d.mant > 0 && d.mant % r == 0 then Strip(Decimal(d.mant / r, d.digits - 1, d.exp), r) else d
  }

  /** The loop of the free format from `p` digits down; `best` is the last decimal that read back. */
  ghost function FreeFrom(m: nat, e: int, r: nat, e0: int, p: nat, best: Decimal): (d: Decimal)
    requires r >= 2
    decreases p
  {
    var c := Strip(Candidate(Real(m, e), r, p, e0), r);
    if !ReadsBack(c, r, m, e) then best
    else if c.digits <= 1 || c.digits > p then c
    else FreeFrom(m, e, r, e0, c.digits - 1, c)
  }

  /** The free format's digits: the first candidate is kept without reading it back. */
  ghost function Free(m: nat, e: int, r: nat, e0: int, pMax: nat): (d: Decimal)
    requires r >= 2
  {
    var c := Strip(Candidate(Real(m, e), r, pMax, e0), r);
    if c.digits <= 1 || c.digits > pMax then c else FreeFrom(m, e, r, e0, c.digits - 1, c)
  }

  /** The exponent estimate: radix^(e0-1) <= 2^(e-1) < radix^e0. */
  ghost predicate Estimate(r: nat, e: int, e0: int)
    requires r >= 1
  {
    Pw(r, e0 - 1) <= Pw(2, e - 1) < Pw(r, e0)
  }

  // ----- candidates -----

  /** Shifting back and forth. */
  lemma ShiftInverse(x: real, r: nat, k: int)
    requires r >= 1
    ensures Shifted(Shifted(x, r, k), r, -k) == x
  {
    hide Pw;
    PwAdd(r, k, -k);
    assert k + -k == 0;
    RMulAssoc(x, Pw(r, k), Pw(r, -k));
    TimesUnit(x, Pw(r, 0));
  }

  lemma TimesUnit(x: real, one: real)
    requires one == 1.0
    ensures x * one == x
  {}

  lemma ShiftAdd(x: real, r: nat, j: int, k: int)
    requires r >= 1
    ensures Shifted(Shifted(x, r, j), r, k) == Shifted(x, r, j + k)
  {
    hide Pw;
    PwAdd(r, j, k);
    RMulAssoc(x, Pw(r, j), Pw(r, k));
  }

  lemma ShiftMono(x: real, y: real, r: nat, k: int)
    requires r >= 1
    ensures x <= y ==> Shifted(x, r, k) <= Shifted(y, r, k)
    ensures x < y ==> Shifted(x, r, k) < Shifted(y, r, k)
  {
    hide Pw;
    FactorMono(x, y, Pw(r, k), Shifted(x, r, k), Shifted(y, r, k));
  }

  lemma FactorMono(x: real, y: real, p: real, xp: real, yp: real)
    requires p > 0.0 && xp == x * p && yp == y * p
    ensures x <= y ==> xp <= yp
    ensures x < y ==> xp < yp
  {
    if x < y {
      RMulStrict(x, y, p);
      assert x * p < y * p;
    } else if x == y {
      assert x * p == y * p;
    }
  }

  lemma ShiftPower(r: nat, j: nat, k: int)
    requires r >= 1
    ensures Shifted(Pow(r, j) as real, r, k) == Pw(r, j + k)
  {
    hide Pw, Pow;
    PwNat(r, j);
    PwAdd(r, j, k);
  }

  lemma ShiftPw(r: nat, j: int, k: int)
    requires r >= 1
    ensures Shifted(Pw(r, j), r, k) == Pw(r, j + k)
  {
    hide Pw;
    PwAdd(r, j, k);
  }

  /** The estimate is right, or one too small for a value below twice the power. */
  ghost predicate InRange(x: real, r: nat, e0: int)
    requires r >= 1
  {
    && 0.0 < Pw(r, e0 - 1) <= x
    && (x < Pw(r, e0) || (r >= 3 && x < 2.0 * Pw(r, e0)))
  }

  lemma EstimateRange(m: nat, e: int, r: nat, e0: int)
    requires Canonical(m, e) && r >= 2 && Estimate(r, e, e0)
    ensures InRange(Real(m, e), r, e0)
  {
    hide Pw, Real, Canonical;
    CanonicalExp(m, e);
    PwSucc(2, e - 1);
    assert e - 1 + 1 == e;
    if r == 2 {
      PwReflects(2, e - 1, e0);
      if e0 - 1 > e - 1 { PwStrict(2, e - 1, e0 - 1); }
      assert e0 == e;
    }
  }

  // ----- candidates -----

  lemma DigitsAtLeast(x: real, r: nat, p: nat, k: int)
    requires r >= 1 && Pw(r, k) <= x
    ensures RoundedDigits(x, r, p, k) >= Pow(r, p)
  {
    hide Pw, Pow, Shifted, Round;
    ShiftPw(r, k, p - k);
    assert k + (p - k) == p;
    ShiftMono(Pw(r, k), x, r, p - k);
    PwNat(r, p);
    RoundMono(NearestEven, Pow(r, p) as real, Shifted(x, r, p - k));
    RoundInt(NearestEven, Pow(r, p));
  }

  lemma DigitsAtMost(x: real, r: nat, p: nat, k: int)
    requires r >= 1 && 0.0 <= x <= Pw(r, k)
    ensures RoundedDigits(x, r, p, k) <= Pow(r, p)
  {
    hide Pw, Pow, Shifted, Round;
    ShiftPw(r, k, p - k);
    assert k + (p - k) == p;
    ShiftMono(x, Pw(r, k), r, p - k);
    PwNat(r, p);
    RoundMono(NearestEven, Shifted(x, r, p - k), Pow(r, p) as real);
    RoundInt(NearestEven, Pow(r, p));
  }

  lemma DigitsSplit(x: real, r: nat, p: nat, k: int)
    requires r >= 1 && x >= 0.0 && p >= 1
    ensures RoundedDigits(x, r, p - 1, k - 1) == RoundedDigits(x, r, p, k)
  {
    assert p - 1 - (k - 1) == p - k;
  }

  /** Below twice a power the digits stay below the next power, for a radix of at least 3. */
  lemma DigitsBelow(x: real, r: nat, p: nat, k: int)
    requires r >= 3 && p >= 1 && 0.0 <= x < 2.0 * Pw(r, k - 1)
    ensures RoundedDigits(x, r, p, k) < Pow(r, p)
  {
    hide Pw, Pow, Shifted, Round;
    var q := Pow(r, p - 1);
    PowPositive(r, p - 1);
    PowUnfold(r, p - 1);
    MulMono(3, r, q, q);
    ShiftPw(r, k - 1, p - k);
    assert k - 1 + (p - k) == p - 1;
    PwNat(r, p - 1);
    ShiftTwice(x, Pw(r, k - 1), r, p - k);
    RoundMono(NearestEven, Shifted(x, r, p - k), (2 * q) as real);
    RoundInt(NearestEven, 2 * q);
  }

  lemma ShiftTwice(x: real, y: real, r: nat, k: int)
    requires r >= 1 && x < 2.0 * y
    ensures Shifted(x, r, k) <= 2.0 * Shifted(y, r, k)
  {
    hide Pw;
    RMulStrict(x, 2.0 * y, Pw(r, k));
    assert (2.0 * y) * Pw(r, k) == 2.0 * (y * Pw(r, k)) by { RMulAssoc(2.0, y, Pw(r, k)); }
  }

  /** When rounding carries into one more digit, the next exponent gives the power itself. */
  lemma Carry(x: real, r: nat, p: nat, k: int)
    requires r >= 2 && p >= 1 && 0.0 < x < Pw(r, k) && RoundedDigits(x, r, p, k) >= Pow(r, p)
    ensures RoundedDigits(x, r, p, k) == Pow(r, p)
    ensures RoundedDigits(x, r, p, k + 1) == Pow(r, p - 1)
    ensures Shifted(Pow(r, p - 1) as real, r, k + 1 - p) == Shifted(Pow(r, p) as real, r, k - p)
  {
    hide Pw, Pow, Shifted, Round;
    DigitsAtMost(x, r, p, k);
    var y, z := Shifted(x, r, p - k), Shifted(x, r, p - (k + 1));
    ShiftAdd(x, r, p - k, -1);
    assert p - k + -1 == p - (k + 1);
    ShiftPw(r, k, p - k);
    assert k + (p - k) == p;
    ShiftMono(x, Pw(r, k), r, p - k);
    PwNat(r, p);
    PowUnfold(r, p - 1);
    NearestEvenUnique(y, Pow(r, p));
    ShiftDown(y, z, r);
    NearCarry(y, z, r, Pow(r, p - 1));
    NearestEvenUnique(z, Pow(r, p - 1));
    ShiftPower(r, p - 1, k + 1 - p);
    ShiftPower(r, p, k - p);
    assert p - 1 + (k + 1 - p) == p + (k - p);
  }

  lemma ShiftDown(y: real, z: real, r: nat)
    requires r >= 1 && z == Shifted(y, r, -1)
    ensures y == r as real * z
  {
    hide Pw;
    PwSucc(r, -1);
    Rotate(y, Pw(r, -1), r as real, Pw(r, 0));
  }

  lemma Rotate(y: real, p: real, r: real, one: real)
    requires one == r * p && one == 1.0
    ensures y == r * (y * p)
  {
    RMulAssoc(r, y, p);
    assert (r * y) * p == y * (r * p);
    TimesUnit(y, one);
  }

  lemma NearCarry(y: real, z: real, r: nat, q: nat)
    requires r >= 2 && y == r as real * z && (r * q) as real - 0.5 <= y < (r * q) as real
    ensures q as real - 0.5 < z < q as real
  {
    assert (r * q) as real == r as real * q as real;
    var d := q as real - z;
    assert r as real * d == r as real * q as real - r as real * z;
    SmallFactor(r as real, d);
  }

  lemma SmallFactor(r: real, d: real)
    requires r >= 2.0 && 0.0 < r * d <= 0.5
    ensures 0.0 < d < 0.5
  {
    if d <= 0.0 { RMulMono(d, 0.0, r); }
    if d >= 0.5 { RMulMono(0.5, d, r); }
  }

  /** The value of a candidate is `x` rounded to a multiple of r^(g - p), and r^(g-1) <= x < r^g. */
  lemma CandidateShape(x: real, r: nat, p: nat, e0: int) returns (g: int)
    requires r >= 2 && p >= 1 && InRange(x, r, e0)
    ensures Pw(r, g - 1) <= x < Pw(r, g)
    ensures
      var c := Candidate(x, r, p, e0);
      && Pow(r, p - 1) <= c.mant < Pow(r, p) && c.digits == p
      && DecValue(c, r) == Shifted(RoundedDigits(x, r, p, g) as real, r, g - p)
  {
    hide Pw, Pow, RoundedDigits, Shifted;
    PowPositive(r, p - 1);
    PowUnfold(r, p - 1);
    MulMono(2, r, Pow(r, p - 1), Pow(r, p - 1));
    if x < Pw(r, e0) {
      g := e0;
      DigitsAtLeast(x, r, p - 1, e0 - 1);
      DigitsSplit(x, r, p, e0);
      if RoundedDigits(x, r, p, e0) >= Pow(r, p) {
        Carry(x, r, p, e0);
      }
    } else {
      g := e0 + 1;
      DigitsAtLeast(x, r, p, e0);
      DigitsAtLeast(x, r, p - 1, e0);
      DigitsSplit(x, r, p, e0 + 1);
      assert e0 + 1 - 1 == e0;
      DigitsBelow(x, r, p, e0 + 1);
      PwSucc(r, e0);
      AboveTwice(x, Pw(r, e0), r as real, Pw(r, e0 + 1));
    }
  }

  lemma AboveTwice(x: real, y: real, r: real, ry: real)
    requires y > 0.0 && r >= 3.0 && x < 2.0 * y && ry == r * y
    ensures x < ry
  {
    RMulMono(3.0, r, y);
    assert 3.0 * y <= r * y;
  }

  // ----- a candidate is closest among all decimals with no more digits -----

  /** A decimal written with at most its number of digits. */
  ghost predicate Fits(d: Decimal, r: nat, p: nat) {
    1 <= d.digits <= p && d.mant < Pow(r, d.digits)
  }

  /** Rounding to a multiple of r^(-k) is at least as close as any such multiple. */
  lemma RoundedClosest(x: real, r: nat, p: int, g: int, n: int)
    requires r >= 1 && x >= 0.0
    ensures Abs(Shifted(RoundedDigits(x, r, p, g) as real, r, g - p) - x) <= Abs(Shifted(n as real, r, g - p) - x)
  {
    hide Round, Abs, Shifted;
    var y, k := Shifted(x, r, p - g), RoundedDigits(x, r, p, g);
    ShiftInverse(x, r, p - g);
    assert -(p - g) == g - p;
    NearestIsClosest(y, n);
    ShiftDistance(k as real, y, r, g - p);
    ShiftDistance(n as real, y, r, g - p);
    AbsFlip(y, k as real);
    AbsFlip(y, n as real);
    ShiftMono(Abs(k as real - y), Abs(n as real - y), r, g - p);
  }

  lemma AbsFlip(x: real, y: real)
    ensures Abs(x - y) == Abs(y - x)
  {}

  lemma ShiftDistance(a: real, b: real, r: nat, k: int)
    requires r >= 1
    ensures Abs(Shifted(a, r, k) - Shifted(b, r, k)) == Shifted(Abs(a - b), r, k)
  {
    hide Pw;
    Distance(a, Pw(r, k), b, Shifted(a, r, k), Shifted(b, r, k));
  }

  /** Every decimal on a coarser grid is a multiple of the finer unit. */
  lemma FinerGrid(n: nat, r: nat, i: int, k: int)
    requires r >= 1 && i >= k
    ensures Shifted(n as real, r, i) == Shifted((n * Pow(r, i - k)) as real, r, k)
  {
    hide Pw, Pow;
    PwAdd(r, i - k, k);
    assert i - k + k == i;
    PwNat(r, i - k);
    assert (n * Pow(r, i - k)) as real == n as real * Pow(r, i - k) as real;
    RMulAssoc(n as real, Pow(r, i - k) as real, Pw(r, k));
  }

  /** The value of a decimal is below the power at its exponent. */
  lemma DecBelow(d: Decimal, r: nat)
    requires r >= 1 && d.digits >= 0 && d.mant < Pow(r, d.digits)
    ensures DecValue(d, r) < Pw(r, d.exp)
  {
    hide Pw, Pow, Shifted;
    ShiftPower(r, d.digits, d.exp - d.digits);
    assert d.digits + (d.exp - d.digits) == d.exp;
    ShiftMono(d.mant as real, Pow(r, d.digits) as real, r, d.exp - d.digits);
  }

  /** No decimal of at most `p` digits is closer to `x` than the candidate of `p` digits. */
  lemma CandidateClosest(x: real, r: nat, p: nat, e0: int, d: Decimal)
    requires r >= 2 && p >= 1 && InRange(x, r, e0) && Fits(d, r, p)
    ensures Abs(DecValue(Candidate(x, r, p, e0), r) - x) <= Abs(DecValue(d, r) - x)
  {
    hide Pw, Pow, Shifted, Candidate, RoundedDigits, Abs;
    var g := CandidateShape(x, r, p, e0);
    var c := DecValue(Candidate(x, r, p, e0), r);
    var i := d.exp - d.digits;
    if i >= g - p {
      FinerGrid(d.mant, r, i, g - p);
      RoundedClosest(x, r, p, g, d.mant * Pow(r, i - (g - p)));
    } else {
      DecBelow(d, r);
      PwMono(r, d.exp, g - 1);
      ShiftPower(r, p - 1, g - p);
      assert p - 1 + (g - p) == g - 1;
      RoundedClosest(x, r, p, g, Pow(r, p - 1));
      FartherAway(c, DecValue(d, r), Pw(r, g - 1), x);
    }
  }

  lemma FartherAway(c: real, w: real, b: real, x: real)
    requires w <= b <= x && Abs(c - x) <= Abs(b - x)
    ensures Abs(c - x) <= Abs(w - x)
  {}

  /** A decimal at least as close as one that reads back reads back, when the spacing is even. */
  lemma CloserReadsBack(c: real, w: real, m: nat, e: int)
    requires Canonical(m, e) && Symmetric(m, e) && c > 0.0 && w > 0.0
    requires Abs(c - Real(m, e)) <= Abs(w - Real(m, e))
    requires ToDouble(NearestEven, w) == (m, e)
    ensures ToDouble(NearestEven, c) == (m, e)
  {
    hide ToDouble, Real, HalfUlp, UnitsOf;
    IntervalSymmetric(w, m, e);
    IntervalSymmetric(c, m, e);
  }

  lemma CandidatePositive(x: real, r: nat, p: nat, e0: int)
    requires r >= 2 && p >= 1 && InRange(x, r, e0)
    ensures DecValue(Candidate(x, r, p, e0), r) > 0.0
  {
    hide Pw, Pow, Shifted, Candidate;
    var g := CandidateShape(x, r, p, e0);
    PowPositive(r, p - 1);
  }

  /** If any decimal of at most `p` digits reads back, so does the candidate of `p` digits. */
  lemma CandidateReads(m: nat, e: int, r: nat, p: nat, e0: int, d: Decimal)
    requires r >= 2 && p >= 1 && Canonical(m, e) && Symmetric(m, e) && Estimate(r, e, e0)
    requires Fits(d, r, p) && ReadsBack(d, r, m, e)
    ensures ReadsBack(Candidate(Real(m, e), r, p, e0), r, m, e)
  {
    hide Pw, Candidate, Real, ToDouble, Fits, DecValue, InRange, Estimate;
    var x := Real(m, e);
    EstimateRange(m, e, r, e0);
    CandidateClosest(x, r, p, e0, d);
    CandidatePositive(x, r, p, e0);
    if DecValue(d, r) == 0.0 { ToDoubleZero(); }
    CloserReadsBack(DecValue(Candidate(x, r, p, e0), r), DecValue(d, r), m, e);
  }

  lemma ToDoubleZero()
    ensures ToDouble(NearestEven, 0.0) == (0, 0)
  {}

  // ----- dropping trailing zeros -----

  /** Stripping keeps the value, drops no more digits than there are, and leaves a last digit that is not 0. */
  lemma {:induction false} StripKeeps(d: Decimal, r: nat)
    requires r >= 2 && d.digits >= 1 && 0 < d.mant < Pow(r, d.digits)
    ensures
      var s := Strip(d, r);
      && DecValue(s, r) == DecValue(d, r) && s.exp == d.exp
      && 1 <= s.digits <= d.digits && 0 < s.mant < Pow(r, s.digits) && s.mant % r != 0
    decreases d.mant
  {
    hide Shifted, Pow;
    if d.mant % r == 0 {
      var q := DropZero(d.mant, r, d.digits);
      StripOne(q, r, d.exp - d.digits);
      StripKeeps(Decimal(q, d.digits - 1, d.exp), r);
    }
  }

  lemma DropZero(n: nat, r: nat, p: nat) returns (q: nat)
    requires r >= 2 && p >= 1 && 0 < n < Pow(r, p) && n % r == 0
    ensures q == n / r && n == r * q && 0 < q < n && p >= 2 && q < Pow(r, p - 1)
  {
    hide Pow;
    q := n / r;
    PowUnfold(r, p - 1);
    PowUnfold(r, 0);
    MulMono(2, r, q, q);
    if q >= Pow(r, p - 1) { MulMono(r, r, Pow(r, p - 1), q); }
  }

  lemma StripOne(q: nat, r: nat, k: int)
    requires r >= 1
    ensures Shifted((r * q) as real, r, k) == Shifted(q as real, r, k + 1)
  {
    hide Pw;
    PwSucc(r, k);
    assert (r * q) as real == q as real * r as real;
    RMulAssoc(q as real, r as real, Pw(r, k));
  }

  // ----- the first candidate -----

  /** With radix^(p-1) >= 2^53 the candidate is so close that it reads back. */
  lemma EnoughDigits(m: nat, e: int, r: nat, p: nat, e0: int)
    requires r >= 2 && p >= 1 && Canonical(m, e) && Estimate(r, e, e0)
    requires Pow(r, p - 1) >= TWO53
    ensures ReadsBack(Candidate(Real(m, e), r, p, e0), r, m, e)
  {
    hide Pw, Pow, Candidate, Real, ToDouble, InRange, Estimate, DecValue, RoundedDigits;
    var x := Real(m, e);
    EstimateRange(m, e, r, e0);
    CandidatePositive(x, r, p, e0);
    var c := DecValue(Candidate(x, r, p, e0), r);
    CandidateError(m, e, r, p, e0);
    VeryCloseReadsBack(c, m, e);
  }

  /** The candidate is within half of x / 2^53. */
  lemma CandidateError(m: nat, e: int, r: nat, p: nat, e0: int)
    requires r >= 2 && p >= 1 && Canonical(m, e) && InRange(Real(m, e), r, e0)
    requires Pow(r, p - 1) >= TWO53
    ensures Abs(DecValue(Candidate(Real(m, e), r, p, e0), r) - Real(m, e)) <= 0.5 * Shifted(Real(m, e), 2, -53)
  {
    hide Pw, Pow, Candidate, Real, InRange, Round, Shifted, Abs;
    var x := Real(m, e);
    var g := CandidateShape(x, r, p, e0);
    var y := Shifted(x, r, p - g);
    var n := RoundedDigits(x, r, p, g);
    ShiftInverse(x, r, p - g);
    assert -(p - g) == g - p;
    NearestEvenUnique(y, n);
    ShiftDistance(n as real, y, r, g - p);
    HalfAway(n as real, y);
    ShiftMono(Abs(n as real - y), 0.5, r, g - p);
    ShiftHalf(r, g - p);
    ShiftPower(r, p - 1, g - p);
    assert p - 1 + (g - p) == g - 1;
    UnitSmall(x, Pow(r, p - 1), r, g - p);
  }

  lemma HalfAway(n: real, y: real)
    requires -0.5 <= y - n <= 0.5
    ensures 0.0 <= Abs(n - y) <= 0.5
  {}

  lemma ShiftHalf(r: nat, k: int)
    requires r >= 1
    ensures Shifted(0.5, r, k) == 0.5 * Pw(r, k)
  {}

  /** A unit whose multiple by at least 2^53 is at most `x` is at most x / 2^53. */
  lemma UnitSmall(x: real, q: nat, r: nat, k: int)
    requires r >= 1 && q >= TWO53 && Shifted(q as real, r, k) <= x
    ensures Pw(r, k) <= Shifted(x, 2, -53)
  {
    hide Pw, Pow;
    var u := Pw(r, k);
    Two53();
    PwNat(2, 53);
    ShiftInverse(u, 2, 53);
    SmallerFactor(TWO53 as real, Pw(2, 53), q as real, u, Shifted(u, 2, 53), Shifted(q as real, r, k));
    ShiftMono(Shifted(u, 2, 53), x, 2, -53);
  }

  lemma SmallerFactor(t: real, t': real, q: real, u: real, ut: real, qu: real)
    requires t == t' && t <= q && u > 0.0 && ut == u * t' && qu == q * u
    ensures ut <= qu
  {
    RMulMono(t, q, u);
  }

  /** Anything within half of x / 2^53 of a double's value rounds to that double. */
  lemma VeryCloseReadsBack(c: real, m: nat, e: int)
    requires Canonical(m, e) && c > 0.0 && Abs(c - Real(m, e)) <= 0.5 * Shifted(Real(m, e), 2, -53)
    ensures ToDouble(NearestEven, c) == (m, e)
  {
    hide Pw, Pow, Real, ToDouble, HalfUlp, UnitsOf, Shifted;
    var x := Real(m, e);
    CanonicalExp(m, e);
    ShiftPw(2, e, -53);
    ShiftMono(x, Pw(2, e), 2, -53);
    assert e + -53 == e - 53;
    PwMono(2, e - 53, UlpExp(e));
    HalfUlpTwice(e);
    if Symmetric(m, e) {
      IntervalSymmetric(c, m, e);
    } else {
      PowerReadsBack(c, e);
    }
  }

  lemma PowerReadsBack(c: real, e: int)
    requires e >= -1020 && c > 0.0 && Canonical(TWO53 / 2, e)
    requires Abs(c - Real(TWO53 / 2, e)) <= 0.5 * Shifted(Real(TWO53 / 2, e), 2, -53)
    ensures ToDouble(NearestEven, c) == (TWO53 / 2, e)
  {
    hide Pw, Real, ToDouble, Shifted;
    PowerCanonical(e);
    ShiftPw(2, e - 1, -53);
    PwSucc(2, e - 55);
    PwSucc(2, e - 54);
    assert e - 1 + -53 == e - 54 && e - 55 + 1 == e - 54;
    PowerInterval(c, e);
  }

  // ----- the free format -----

  /** The decimal reads back, has no trailing zero and is closest among the decimals of its length. */
  ghost predicate Good(d: Decimal, r: nat, m: nat, e: int)
    requires r >= 2
  {
    && ReadsBack(d, r, m, e)
    && d.digits >= 1 && 0 < d.mant < Pow(r, d.digits) && d.mant % r != 0
    && (forall w: Decimal :: w.digits == d.digits && w.mant < Pow(r, w.digits) ==>
          Abs(DecValue(d, r) - Real(m, e)) <= Abs(DecValue(w, r) - Real(m, e)))
  }

  /** Good, and no shorter decimal reads back. */
  ghost predicate ShortestDigits(d: Decimal, r: nat, m: nat, e: int)
    requires r >= 2
  {
    && Good(d, r, m, e)
    && (forall w: Decimal :: 1 <= w.digits < d.digits && w.mant < Pow(r, w.digits) ==> !ReadsBack(w, r, m, e))
  }

  /** A stripped candidate, with what the loop needs to know about it. */
  lemma StrippedCandidate(m: nat, e: int, r: nat, p: nat, e0: int)
    requires r >= 2 && p >= 1 && Canonical(m, e) && Estimate(r, e, e0)
    ensures
      var k := Candidate(Real(m, e), r, p, e0);
      var c := Strip(k, r);
      && DecValue(c, r) == DecValue(k, r) && (ReadsBack(c, r, m, e) <==> ReadsBack(k, r, m, e))
      && 1 <= c.digits <= p && 0 < c.mant < Pow(r, c.digits) && c.mant % r != 0
  {
    hide Pw, Pow, Candidate, Real, ToDouble, Strip, DecValue;
    EstimateRange(m, e, r, e0);
    var g := CandidateShape(Real(m, e), r, p, e0);
    PowPositive(r, p - 1);
    StripKeeps(Candidate(Real(m, e), r, p, e0), r);
  }

  lemma CandidateGood(m: nat, e: int, r: nat, p: nat, e0: int)
    requires r >= 2 && p >= 1 && Canonical(m, e) && Estimate(r, e, e0)
    requires ReadsBack(Candidate(Real(m, e), r, p, e0), r, m, e)
    ensures
      var c := Strip(Candidate(Real(m, e), r, p, e0), r);
      Good(c, r, m, e) && c.digits <= p
  {
    hide Pw, Pow, Candidate, Real, Strip, DecValue, ReadsBack, Estimate, Abs;
    StrippedCandidate(m, e, r, p, e0);
    var c := Strip(Candidate(Real(m, e), r, p, e0), r);
    EstimateRange(m, e, r, e0);
    forall w: Decimal | w.digits == c.digits && w.mant < Pow(r, w.digits)
      ensures Abs(DecValue(c, r) - Real(m, e)) <= Abs(DecValue(w, r) - Real(m, e))
    {
      CandidateClosest(Real(m, e), r, p, e0, w);
    }
  }

  /** When the candidate of `p` digits does not read back, no decimal of at most `p` digits does. */
  lemma NoneShorter(m: nat, e: int, r: nat, p: nat, e0: int)
    requires r >= 2 && p >= 1 && Canonical(m, e) && Symmetric(m, e) && Estimate(r, e, e0)
    requires !ReadsBack(Candidate(Real(m, e), r, p, e0), r, m, e)
    ensures forall w: Decimal :: 1 <= w.digits <= p && w.mant < Pow(r, w.digits) ==> !ReadsBack(w, r, m, e)
  {
    hide Pw, Pow, Candidate, Real, ReadsBack, Estimate;
    forall w: Decimal | 1 <= w.digits <= p && w.mant < Pow(r, w.digits) && ReadsBack(w, r, m, e)
      ensures false
    {
      CandidateReads(m, e, r, p, e0, w);
    }
  }

  lemma {:induction false} FreeFromShortest(m: nat, e: int, r: nat, e0: int, p: nat, best: Decimal)
    requires r >= 2 && p >= 1 && Canonical(m, e) && Estimate(r, e, e0)
    requires Good(best, r, m, e) && best.digits == p + 1
    ensures Good(FreeFrom(m, e, r, e0, p, best), r, m, e) && FreeFrom(m, e, r, e0, p, best).digits <= p + 1
    ensures Symmetric(m, e) ==> ShortestDigits(FreeFrom(m, e, r, e0, p, best), r, m, e)
    decreases p
  {
    hide Pw, Pow, Candidate, Real, ReadsBack, Estimate, Strip, DecValue, Canonical;
    StrippedCandidate(m, e, r, p, e0);
    var c := Strip(Candidate(Real(m, e), r, p, e0), r);
    if ReadsBack(c, r, m, e) {
      CandidateGood(m, e, r, p, e0);
      if c.digits > 1 {
        FreeFromShortest(m, e, r, e0, c.digits - 1, c);
      }
    } else if Symmetric(m, e) {
      NoneShorter(m, e, r, p, e0);
    }
  }

  /**
    * The free format: its digits always read back as the double and are the closest of their length; when
    * the spacing of doubles is even around the value no shorter digit string reads back.
    */
  lemma FreeShortest(m: nat, e: int, r: nat, e0: int, pMax: nat)
    requires r >= 2 && Canonical(m, e) && Estimate(r, e, e0)
    requires pMax >= 1 && Pow(r, pMax - 1) >= TWO53
    ensures Good(Free(m, e, r, e0, pMax), r, m, e) && Free(m, e, r, e0, pMax).digits <= pMax
    ensures Symmetric(m, e) ==> ShortestDigits(Free(m, e, r, e0, pMax), r, m, e)
  {
    hide Pw, Pow, Candidate, Real, ReadsBack, Estimate, Strip, DecValue, Canonical;
    EnoughDigits(m, e, r, pMax, e0);
    CandidateGood(m, e, r, pMax, e0);
    StrippedCandidate(m, e, r, pMax, e0);
    var c := Strip(Candidate(Real(m, e), r, pMax, e0), r);
    if c.digits > 1 {
      FreeFromShortest(m, e, r, e0, c.digits - 1, c);
    }
  }

  lemma {:induction false} StripExp(d: Decimal, r: nat)
    requires r >= 2
    ensures Strip(d, r).exp == d.exp
    decreases d.mant
  {
    if d.mant > 0 && d.mant % r == 0 {
      QuotientSmaller(d.mant, r);
      StripExp(Decimal(d.mant / r, d.digits - 1, d.exp), r);
    }
  }

  lemma QuotientSmaller(n: nat, r: nat)
    requires n > 0 && r >= 2
    ensures 0 <= n / r < n
  {}

  /** The exponent of the digits is the estimate or one more. */
  lemma {:induction false} FreeFromExp(m: nat, e: int, r: nat, e0: int, p: nat, best: Decimal)
    requires r >= 2 && e0 <= best.exp <= e0 + 1
    ensures e0 <= FreeFrom(m, e, r, e0, p, best).exp <= e0 + 1
    decreases p
  {
    hide ReadsBack, Strip, Real, RoundedDigits, Pow;
    var c := Strip(Candidate(Real(m, e), r, p, e0), r);
    StripExp(Candidate(Real(m, e), r, p, e0), r);
    if ReadsBack(c, r, m, e) && 1 < c.digits <= p { FreeFromExp(m, e, r, e0, c.digits - 1, c); }
  }

  lemma FreeExp(m: nat, e: int, r: nat, e0: int, pMax: nat)
    requires r >= 2
    ensures e0 <= Free(m, e, r, e0, pMax).exp <= e0 + 1
  {
    hide ReadsBack, Strip, Real, RoundedDigits, Pow, FreeFrom;
    var c := Strip(Candidate(Real(m, e), r, pMax, e0), r);
    StripExp(Candidate(Real(m, e), r, pMax, e0), r);
    if 1 < c.digits <= pMax { FreeFromExp(m, e, r, e0, c.digits - 1, c); }
  }

  // ----- the leading digit -----

  /** Stripping trailing zeros leaves the leading digit. */
  lemma {:induction false} StripLeading(d: Decimal, r: nat)
    requires r >= 2 && d.digits >= 1 && Pow(r, d.digits - 1) <= d.mant < Pow(r, d.digits)
    ensures Strip(d, r).digits >= 1 && Pow(r, Strip(d, r).digits - 1) <= Strip(d, r).mant
    decreases d.mant
  {
    hide Pow, Strip;
    PowPositive(r, d.digits - 1);
    StripStep(d, r);
    if d.mant % r == 0 {
      var q := DropLeading(d.mant, r, d.digits);
      StripLeading(Decimal(q, d.digits - 1, d.exp), r);
    }
  }

  lemma StripStep(d: Decimal, r: nat)
    requires r >= 2 && d.mant > 0
    ensures Strip(d, r) == if d.mant % r == 0 then Strip(Decimal(d.mant / r, d.digits - 1, d.exp), r) else d
  {}

  lemma DropLeading(n: nat, r: nat, p: nat) returns (q: nat)
    requires r >= 2 && p >= 1 && 0 < n && Pow(r, p - 1) <= n < Pow(r, p) && n % r == 0
    ensures q == n / r && q < n && p >= 2 && Pow(r, p - 2) <= q < Pow(r, p - 1)
  {
    hide Pow;
    q := DropZero(n, r, p);
    PowUnfold(r, p - 2);
    FactorOut(r, Pow(r, p - 2), q, Pow(r, p - 1), n);
  }

  lemma FactorOut(r: int, a: int, b: int, ra: int, rb: int)
    requires r >= 1 && ra == r * a && rb == r * b && ra <= rb
    ensures a <= b
  {}

  lemma CandidateLeading(m: nat, e: int, r: nat, p: nat, e0: int)
    requires r >= 2 && p >= 1 && Canonical(m, e) && Estimate(r, e, e0)
    ensures
      var c := Strip(Candidate(Real(m, e), r, p, e0), r);
      c.digits >= 1 && Pow(r, c.digits - 1) <= c.mant
  {
    hide Pw, Pow, Candidate, Real, Strip, DecValue, Canonical, Estimate;
    EstimateRange(m, e, r, e0);
    var g := CandidateShape(Real(m, e), r, p, e0);
    StripLeading(Candidate(Real(m, e), r, p, e0), r);
  }

  lemma {:induction false} FreeFromLeading(m: nat, e: int, r: nat, e0: int, p: nat, best: Decimal)
    requires r >= 2 && p >= 1 && Canonical(m, e) && Estimate(r, e, e0)
    requires best.digits >= 1 && Pow(r, best.digits - 1) <= best.mant
    ensures
      var d := FreeFrom(m, e, r, e0, p, best);
      d.digits >= 1 && Pow(r, d.digits - 1) <= d.mant
    decreases p
  {
    hide ReadsBack, Strip, Real, Candidate, Pow, Canonical, Estimate;
    var c := Strip(Candidate(Real(m, e), r, p, e0), r);
    CandidateLeading(m, e, r, p, e0);
    if ReadsBack(c, r, m, e) && 1 < c.digits <= p { FreeFromLeading(m, e, r, e0, c.digits - 1, c); }
  }

  /** The digits of the free format start with a digit that is not zero. */
  lemma FreeLeading(m: nat, e: int, r: nat, e0: int, pMax: nat)
    requires r >= 2 && pMax >= 1 && Canonical(m, e) && Estimate(r, e, e0)
    ensures
      var d := Free(m, e, r, e0, pMax);
      d.digits >= 1 && Pow(r, d.digits - 1) <= d.mant
  {
    hide ReadsBack, Strip, Real, Candidate, Pow, FreeFrom, Canonical, Estimate;
    var c := Strip(Candidate(Real(m, e), r, pMax, e0), r);
    CandidateLeading(m, e, r, pMax, e0);
    if 1 < c.digits <= pMax { FreeFromLeading(m, e, r, e0, c.digits - 1, c); }
  }
}
