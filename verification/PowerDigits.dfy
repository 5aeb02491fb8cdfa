/**
  * How many digits the free loop of js_dtoa in src/dtoa.c gives for powers of two, whose lower neighbour is closer
  * than the upper one: the fewest in a power-of-two radix, too many for some power of two in every other radix.
  */
module PowerDigits {
  import opened Powers
  import opened Rounding
  import opened Tables
  import opened Doubles
  import opened Nearest
  import opened Shortest
  import opened RoundedScaling
  import opened FreeLoop
  import opened LogTables
  import opened Estimates
  import opened PowTwo

  /** What the free loop finds, started at js_dtoa's own exponent estimate and number of digits. */
  ghost function LoopDigits(m: nat, e: int, r: nat): (d: Decimal)
    requires IsRadix(r)
  {
    Free(m, e, r, 1 + MulLog2Radix(e - 1, r), DtoaMaxDigits(r))
  }

  /** No decimal with fewer digits reads back. */
  ghost predicate Fewest(d: Decimal, r: nat, m: nat, e: int)
    requires IsRadix(r)
  {
    forall w: Decimal :: 1 <= w.digits < d.digits && w.mant < Pow(r, w.digits) ==> !ReadsBack(w, r, m, e)
  }

  // ----- power-of-two radices -----

  /** In a power-of-two radix the loop writes a power of two with one digit. */
  lemma OneDigit(e: int, r: nat)
    requires IsPow2Radix(r) && -1020 <= e <= 1024
    ensures LoopDigits(TWO53 / 2, e, r).digits == 1
  {
    hide Pow, Pw, MulLog2Radix, DtoaMaxDigits, Round, Real, Strip, RadixShift;
    var t := ShiftOf(r);
    var k, p := 1 + MulLog2Radix(e - 1, r), DtoaMaxDigits(r);
    DtoaTable(r);
    EstimateExact(e, r);
    PowerCanonical(e);
    var j := e - 1 - (k - 1) * t;
    LeadingBits(r, t, e - 1, k);
    ExactDigits(r, t, e - 1, k, p);
    StripPower(Pow(2, j), r, p - 1, k);
  }

  lemma LeadingBits(r: nat, t: nat, a: int, k: int)
    requires t > 0 && r == Pow(2, t) && r >= 2 && Pw(r, k - 1) <= Pw(2, a) < Pw(r, k)
    ensures 0 <= a - (k - 1) * t < t && 0 < Pow(2, a - (k - 1) * t) < r
  {
    hide Pow, Pw;
    PwOfPow(2, t, k - 1);
    PwOfPow(2, t, k);
    if (k - 1) * t > a { PwStrict(2, a, (k - 1) * t); }
    PwReflects(2, a, k * t);
    assert k * t == (k - 1) * t + t;
    PowPositive(2, a - (k - 1) * t);
    PowMore(2, a - (k - 1) * t, t);
  }

  lemma PowMore(b: nat, j: nat, k: nat)
    requires b >= 2 && j < k
    ensures Pow(b, j) < Pow(b, k)
  {
    PowPositive(b, j);
    PowUnfold(b, j);
    MulMono(2, b, Pow(b, j), Pow(b, j));
    PowMono(b, j + 1, k);
  }

  /** Its digits are one digit and zeros. */
  lemma ExactDigits(r: nat, t: nat, a: int, k: int, p: nat)
    requires t > 0 && r == Pow(2, t) && r >= 2 && p >= 1 && 0 <= a - (k - 1) * t < t && Pw(2, a) >= 0.0
    ensures
      var n := Pow(2, a - (k - 1) * t) * Pow(r, p - 1);
      RoundedDigits(Pw(2, a), r, p, k) == n && n < Pow(r, p)
  {
    hide Pow, Pw, Round, Shifted;
    var j, i := a - (k - 1) * t, t * (p - 1);
    SameExponent(a, k, t, p, j);
    ShiftedPower(r, t, a, p - k);
    PowPow(2, t, p - 1);
    PowAdd(2, j, i);
    PwNat(2, j + i);
    NearestEvenUnique(Pow(2, j + i) as real, Pow(2, j + i));
    PowPow(2, t, p);
    PowMore(2, j + i, t * p);
  }

  lemma SameExponent(a: int, k: int, t: nat, p: nat, j: int)
    requires j == a - (k - 1) * t && p >= 1 && j < t
    ensures a + (p - k) * t == j + t * (p - 1) && t * p == t * (p - 1) + t
  {}

  lemma ShiftedPower(r: nat, t: nat, a: int, i: int)
    requires r == Pow(2, t) && r >= 2
    ensures Shifted(Pw(2, a), r, i) == Pw(2, a + i * t)
  {
    hide Pow, Pw;
    PwOfPow(2, t, i);
    PwAdd(2, a, i * t);
  }

  lemma OneZero(c: nat, r: nat, p: nat)
    requires r >= 2 && c > 0 && p > 0
    ensures c * (r * p) > 0 && c * (r * p) % r == 0 && c * (r * p) / r == c * p
  {
    assert c * (r * p) == (c * p) * r;
    MulMono(1, c, 1, p);
    DivModUnique((c * p) * r, r, c * p, 0);
  }

  lemma {:induction false} StripPower(c: nat, r: nat, n: nat, k: int)
    requires r >= 2 && 0 < c < r
    ensures Strip(Decimal(c * Pow(r, n), n + 1, k), r) == Decimal(c, 1, k)
    decreases n
  {
    hide Pow;
    PowUnfold(r, 0);
    if n == 0 {
      assert c * Pow(r, 0) == c;
    } else {
      var p := Pow(r, n - 1);
      PowUnfold(r, n - 1);
      PowPositive(r, n - 1);
      OneZero(c, r, p);
      StripPower(c, r, n - 1, k);
    }
  }

  // ----- a candidate that fails ends the loop -----

  lemma NeighbourGap(x: real, r: nat, p: nat, k: int)
    requires r >= 2 && x >= 0.0
    ensures DecValue(Above(x, r, p, k), r) == DecValue(Below(x, r, p, k), r) + Pw(r, k - p)
  {
    hide Pw, CutDigits;
    Distribute(CutDigits(x, r, p, k) as real, Pw(r, k - p));
  }

  lemma Distribute(n: real, u: real)
    ensures (n + 1.0) * u == n * u + u
  {}

  /** The decimal above, written with at most `p` digits. */
  lemma AboveFits(x: real, r: nat, p: nat, k: int) returns (d: Decimal)
    requires r >= 2 && p >= 1 && x > 0.0 && Pw(r, k - 1) <= x < Pw(r, k)
    ensures Fits(d, r, p) && DecValue(d, r) == DecValue(Above(x, r, p, k), r)
  {
    hide Pw, Pow, CutDigits, Shifted;
    Neighbours(x, r, p, k);
    d := Above(x, r, p, k);
    if d.mant == Pow(r, p) {
      PowUnfold(r, p - 1);
      PowPositive(r, p - 1);
      MulMono(2, r, Pow(r, p - 1), Pow(r, p - 1));
      d := Decimal(Pow(r, p - 1), p, k + 1);
      ShiftPower(r, p, k - p);
      ShiftPower(r, p - 1, k + 1 - p);
      assert p + (k - p) == k && p - 1 + (k + 1 - p) == k;
    }
  }

  /** The candidate is at most half a unit away. */
  lemma WithinHalfUnit(x: real, r: nat, p: nat, k: int)
    requires r >= 2 && p >= 1 && x > 0.0 && Pw(r, k - 1) <= x < Pw(r, k)
    ensures 2.0 * Abs(DecValue(Candidate(x, r, p, k), r) - x) <= Pw(r, k - p)
  {
    hide Pw, Pow, CutDigits, Shifted, Candidate, DecValue;
    Neighbours(x, r, p, k);
    NeighbourGap(x, r, p, k);
    var d := AboveFits(x, r, p, k);
    CandidateClosest(x, r, p, k, Below(x, r, p, k));
    CandidateClosest(x, r, p, k, d);
  }

  /** Two decimals of at most `q` digits around the value are a unit apart, so more digits come closer. */
  lemma MoreDigitsCloser(x: real, r: nat, q: nat, p: nat, k: int, a: Decimal, b: Decimal)
    requires r >= 2 && 1 <= q < p && x > 0.0 && Pw(r, k - 1) <= x < Pw(r, k) && Fits(a, r, q) && Fits(b, r, q)
    requires DecValue(a, r) < x < DecValue(b, r) && x - DecValue(a, r) == DecValue(b, r) - x
    ensures Abs(DecValue(Candidate(x, r, p, k), r) - x) < x - DecValue(a, r)
  {
    hide Pw, Pow, CutDigits, Shifted, Candidate, DecValue, Fits;
    NothingBetween(x, r, q, k, a);
    NothingBetween(x, r, q, k, b);
    NeighbourGap(x, r, q, k);
    WithinHalfUnit(x, r, p, k);
    PwStrict(r, k - p, k - q);
  }

  /** If a longer candidate strips to at most `q` digits and reads back, so does the candidate of `q` digits. */
  lemma ShortCandidateReads(m: nat, e: int, r: nat, e0: int, p: nat, q: nat)
    requires r >= 2 && Canonical(m, e) && Estimate(r, e, e0) && Real(m, e) < Pw(r, e0) && 1 <= q < p
    requires
      var c := Strip(Candidate(Real(m, e), r, p, e0), r);
      c.digits <= q && ReadsBack(c, r, m, e)
    ensures ReadsBack(Candidate(Real(m, e), r, q, e0), r, m, e)
  {
    hide Pw, Pow, Candidate, Real, ToDouble, Strip, DecValue, Estimate, Canonical;
    var x := Real(m, e);
    EstimateRange(m, e, r, e0);
    StrippedCandidate(m, e, r, p, e0);
    StrippedCandidate(m, e, r, q, e0);
    var c, b := Strip(Candidate(x, r, p, e0), r), Strip(Candidate(x, r, q, e0), r);
    CandidateClosest(x, r, q, e0, c);
    CandidateClosest(x, r, p, e0, b);
    var v, w := DecValue(c, r), DecValue(b, r);
    if v != w {
      if v < x { MoreDigitsCloser(x, r, q, p, e0, c, b); } else { MoreDigitsCloser(x, r, q, p, e0, b, c); }
    }
  }

  /** Once the candidate of `q` digits does not read back, the loop ends with more than `q` digits. */
  lemma {:induction false} FreeFromLonger(m: nat, e: int, r: nat, e0: int, p: nat, best: Decimal, q: nat)
    requires r >= 2 && Canonical(m, e) && Estimate(r, e, e0) && Real(m, e) < Pw(r, e0) && 1 <= q <= p && best.digits > q
    requires !ReadsBack(Candidate(Real(m, e), r, q, e0), r, m, e)
    ensures FreeFrom(m, e, r, e0, p, best).digits > q
    decreases p
  {
    hide Pw, Pow, Candidate, Real, ReadsBack, Strip, Estimate, Canonical;
    StrippedCandidate(m, e, r, p, e0);
    var c := Strip(Candidate(Real(m, e), r, p, e0), r);
    if ReadsBack(c, r, m, e) {
      if c.digits <= q {
        if p > q { ShortCandidateReads(m, e, r, e0, p, q); }
      } else {
        FreeFromLonger(m, e, r, e0, c.digits - 1, c, q);
      }
    }
  }

  lemma FreeLonger(m: nat, e: int, r: nat, e0: int, pMax: nat, q: nat)
    requires r >= 2 && Canonical(m, e) && Estimate(r, e, e0) && Real(m, e) < Pw(r, e0) && 1 <= q < pMax
    requires Pow(r, pMax - 1) >= TWO53 && !ReadsBack(Candidate(Real(m, e), r, q, e0), r, m, e)
    ensures Free(m, e, r, e0, pMax).digits > q
  {
    hide Pw, Pow, Candidate, Real, ReadsBack, Strip, Estimate, Canonical, FreeFrom;
    StrippedCandidate(m, e, r, pMax, e0);
    EnoughDigits(m, e, r, pMax, e0);
    var c := Strip(Candidate(Real(m, e), r, pMax, e0), r);
    if c.digits <= q {
      ShortCandidateReads(m, e, r, e0, pMax, q);
    } else {
      FreeFromLonger(m, e, r, e0, c.digits - 1, c, q);
    }
  }

  // ----- radices that are no power of two -----

  /**
    * The power 2^t, with exponent `k` in the radix, is a/s units of its digit `q`: rounded down to `n` units it is too
    * far below to read back, while n + 1 units do read back.
    */
  datatype Long = Long(t: int, q: nat, k: int, a: nat, s: nat, n: nat)

  predicate TooFarBelow(a: nat, s: nat, n: nat) {
    && 0 < n && 0 < s && n * s <= a < n * s + s && 2 * (a - n * s) <= s && (2 * (a - n * s) == s ==> n % 2 == 0)
    && (a - n * s) * 0x40_0000_0000_0000 > a && (n * s + s - a) * 0x20_0000_0000_0000 <= a
  }

  predicate Measures(r: nat, c: Long) {
    if c.q >= c.k then c.t < 0 && c.a == Square(r, c.q - c.k) && c.s == Square(2, -c.t)
    else c.t > 0 && c.a == Square(2, c.t) && c.s == Square(r, c.k - c.q)
  }

  /** The power in units of its digit `q`. */
  lemma InUnitsOf(r: nat, c: Long)
    requires r >= 2 && Measures(r, c)
    ensures c.s > 0 && Shifted(Pw(2, c.t), r, c.q - c.k) * c.s as real == c.a as real
  {
    hide Pow, Pw, Square;
    var t, i := c.t, c.q - c.k;
    if c.q >= c.k {
      SquareIsPow(r, i);
      SquareIsPow(2, -t);
      PowPositive(2, -t);
      PwNat(r, i);
      PwNat(2, -t);
      PwAdd(2, t, -t);
      Unscale(Pw(2, t), Pw(r, i), c.s as real, Pw(2, 0));
    } else {
      SquareIsPow(2, t);
      SquareIsPow(r, -i);
      PowPositive(r, -i);
      PwNat(2, t);
      PwNat(r, -i);
      PwAdd(r, i, -i);
      RMulAssoc(Pw(2, t), Pw(r, i), c.s as real);
      TimesUnit(Pw(2, t), Pw(r, 0));
    }
  }

  lemma Unscale(x: real, p: real, s: real, one: real)
    requires x * s == one && one == 1.0
    ensures (x * p) * s == p
  {
    assert (x * p) * s == (x * s) * p;
  }

  /** The two decimals next to a power of two. */
  lemma BelowFailsAboveReads(r: nat, c: Long)
    requires r >= 2 && -1021 <= c.t && c.q >= 1 && Measures(r, c) && TooFarBelow(c.a, c.s, c.n)
    ensures RoundedDigits(Pw(2, c.t), r, c.q, c.k) == c.n
    ensures !ReadsBack(Decimal(c.n, c.q, c.k), r, TWO53 / 2, c.t + 1)
    ensures ReadsBack(Decimal(c.n + 1, c.q, c.k), r, TWO53 / 2, c.t + 1)
  {
    hide Pow, Pw, Square, Round, ToDouble, Shifted;
    InUnitsOf(r, c);
    var y := Shifted(Pw(2, c.t), r, c.q - c.k);
    UnitFacts(y, c.a, c.s, c.n);
    NearestEvenUnique(y, c.n);
    AroundPower(r, c.t, c.q, c.k, c.n, y);
  }

  /** The quotient a/s, its rounding and how far the integers next to it are, as parts of it. */
  lemma UnitFacts(y: real, a: nat, s: nat, n: nat)
    requires y * s as real == a as real && TooFarBelow(a, s, n)
    ensures IsNearestEven(y, n) && FarBelowNearAbove(n as real, y)
  {
    var p := n * s;
    CastProducts(n, s, p);
    OverUnits(y, n as real, s as real, a as real, p as real);
  }

  lemma CastProducts(n: nat, s: nat, p: nat)
    requires p == n * s
    ensures p as real == n as real * s as real
  {}

  ghost predicate FarBelowNearAbove(n: real, y: real) {
    n <= y < n + 1.0 && (y - n) * 18014398509481984.0 > y && (n + 1.0 - y) * 9007199254740992.0 <= y
  }

  lemma OverUnits(y: real, n: real, s: real, a: real, p: real)
    requires s > 0.0 && y * s == a && n * s == p && p <= a < p + s && 2.0 * (a - p) <= s
    requires (a - p) * 18014398509481984.0 > a && (p + s - a) * 9007199254740992.0 <= a
    ensures FarBelowNearAbove(n, y) && y - n <= 0.5 && (y - n == 0.5 ==> 2.0 * (a - p) == s)
  {
    var d := y - n;
    assert d * s == a - p;
    CancelOrder(d * 18014398509481984.0, y, s, (a - p) * 18014398509481984.0, a);
    CancelOrder((1.0 - d) * 9007199254740992.0, y, s, (p + s - a) * 9007199254740992.0, a);
    CancelOrder(d, 0.0, s, a - p, 0.0);
    CancelOrder(d, 1.0, s, a - p, s);
    CancelOrder(2.0 * d, 1.0, s, 2.0 * (a - p), s);
  }

  lemma CancelOrder(x: real, y: real, s: real, xs: real, ys: real)
    requires s > 0.0 && x * s == xs && y * s == ys
    ensures xs <= ys ==> x <= y
    ensures xs < ys ==> x < y
    ensures ys <= xs ==> y <= x
    ensures ys < xs ==> y < x
  {
    if x < y { RMulStrict(x, y, s); }
    if y < x { RMulStrict(y, x, s); }
  }

  lemma AroundPower(r: nat, t: int, q: nat, k: int, n: nat, y: real)
    requires r >= 2 && -1021 <= t && q >= 1 && y == Shifted(Pw(2, t), r, q - k) && FarBelowNearAbove(n as real, y)
    requires n > 0
    ensures !ReadsBack(Decimal(n, q, k), r, TWO53 / 2, t + 1) && ReadsBack(Decimal(n + 1, q, k), r, TWO53 / 2, t + 1)
  {
    hide Pw, ToDouble;
    var x, u := Pw(2, t), Pw(r, k - q);
    ShiftInverse(x, r, q - k);
    assert -(q - k) == k - q && t + 1 - 1 == t && t + 1 - 55 == t - 54 && t + 1 - 54 == t - 53;
    Fractions(t);
    var p, z := DecValue(Decimal(n, q, k), r), DecValue(Decimal(n + 1, q, k), r);
    Spread(n as real, y, u, x, Pw(2, t - 54), Pw(2, t - 53), p, z);
    PowerInterval(p, t + 1);
    PowerInterval(z, t + 1);
  }

  lemma Fractions(t: int)
    ensures Pw(2, t - 54) * 18014398509481984.0 == Pw(2, t) && Pw(2, t - 53) * 9007199254740992.0 == Pw(2, t)
  {
    hide Pw, Pow, Square;
    PwAdd(2, t - 54, 54);
    PwAdd(2, t - 53, 53);
    Powers53();
  }

  lemma Powers53()
    ensures Pw(2, 54) == 18014398509481984.0 && Pw(2, 53) == 9007199254740992.0
  {
    hide Pw, Pow;
    SquareIsPow(2, 53);
    assert Square(2, 53) == 9007199254740992;
    PwNat(2, 53);
    PwSucc(2, 53);
  }

  lemma Spread(n: real, y: real, u: real, x: real, lo: real, hi: real, p: real, z: real)
    requires u > 0.0 && x == y * u && p == n * u && z == (n + 1.0) * u
    requires lo * 18014398509481984.0 == x && hi * 9007199254740992.0 == x && FarBelowNearAbove(n, y)
    ensures p < x - lo && x < z <= x + hi
  {
    var q, v := (y - n) * u, (n + 1.0 - y) * u;
    MinusTimes(y, n, u);
    MinusTimes(n + 1.0, y, u);
    ScaleOrder(y, y - n, 18014398509481984.0, u, x, q);
    ScaleOrder(y, n + 1.0 - y, 9007199254740992.0, u, x, v);
    ScaleOrder(y, n + 1.0, 1.0, u, x, z);
    Compare(p, q, v, x, lo, hi, z);
  }

  lemma ScaleOrder(y: real, d: real, c: real, u: real, x: real, q: real)
    requires u > 0.0 && x == y * u && q == d * u
    ensures y < d * c ==> x < q * c
    ensures d * c <= y ==> q * c <= x
  {
    Swap(d, c, u);
    if y < d * c { RMulStrict(y, d * c, u); }
    if d * c <= y { RMulMono(d * c, y, u); }
  }

  lemma Compare(p: real, q: real, v: real, x: real, lo: real, hi: real, z: real)
    requires lo * 18014398509481984.0 == x && hi * 9007199254740992.0 == x && q == x - p && v == z - x
    requires x < q * 18014398509481984.0 && v * 9007199254740992.0 <= x
    ensures p < x - lo && z <= x + hi
  {}

  lemma MinusTimes(a: real, b: real, u: real)
    ensures (a - b) * u == a * u - b * u
  {}

  lemma Swap(d: real, c: real, u: real)
    ensures (d * c) * u == (d * u) * c
  {}

  /** A power of two and a number of digits at which the loop goes wrong. */
  predicate LongRow(r: nat, c: Long)
    requires NeedsBracket(r)
  {
    && -1000 <= c.t <= 1000 && 1 <= c.q < DtoaMaxDigits(r) && c.k == 1 + MulLog2Radix(c.t, r)
    && ((c.q == DtoaMaxDigits(r) - 1 && c.n + 1 < TWO53) || c.n + 1 < Square(r, c.q))
    && Measures(r, c) && TooFarBelow(c.a, c.s, c.n)
  }

  lemma Long3() returns (c: Long)
    ensures LongRow(3, c) && c.t == -1
  {
    c := Long(-1, 34, 0, 16677181699666569, 2, 8338590849833284);
    assert Square(3, 34) == 16677181699666569;
    assert Square(2, 1) == 2;
    hide Square;
  }

  lemma Long5() returns (c: Long)
    ensures LongRow(5, c) && c.t == -1
  {
    c := Long(-1, 23, 0, 11920928955078125, 2, 5960464477539062);
    assert Square(5, 23) == 11920928955078125;
    assert Square(2, 1) == 2;
    hide Square;
  }

  lemma Long6() returns (c: Long)
    ensures LongRow(6, c) && c.t == 68
  {
    c := Long(68, 21, 27, 295147905179352825856, 46656, 6326043921025223);
    assert Square(2, 68) == 295147905179352825856;
    assert Square(6, 6) == 46656;
    hide Square;
  }

  lemma Long7() returns (c: Long)
    ensures LongRow(7, c) && c.t == 58
  {
    c := Long(58, 19, 21, 288230376151711744, 49, 5882252574524729);
    assert Square(2, 58) == 288230376151711744;
    assert Square(7, 2) == 49;
    hide Square;
  }

  lemma Long9() returns (c: Long)
    ensures LongRow(9, c) && c.t == -1
  {
    c := Long(-1, 17, 0, 16677181699666569, 2, 8338590849833284);
    assert Square(9, 17) == 16677181699666569;
    assert Square(2, 1) == 2;
    hide Square;
  }

  lemma Long10() returns (c: Long)
    ensures LongRow(10, c) && c.t == -24
  {
    c := Long(-24, 16, -7, 100000000000000000000000, 16777216, 5960464477539062);
    assert Square(10, 23) == 100000000000000000000000;
    assert Square(2, 24) == 16777216;
    hide Square;
  }

  lemma Long11() returns (c: Long)
    ensures LongRow(11, c) && c.t == 66
  {
    c := Long(66, 16, 20, 73786976294838206464, 14641, 5039749764007800);
    assert Square(2, 66) == 73786976294838206464;
    assert Square(11, 4) == 14641;
    hide Square;
  }

  lemma Squares12()
    ensures Square(2, 74) == 18889465931478580854784
    ensures Square(12, 6) == 2985984
  {}

  lemma Long12() returns (c: Long)
    ensures LongRow(12, c) && c.t == 74
  {
    hide Square;
    Squares12();
    c := Long(74, 15, 21, 18889465931478580854784, 2985984, 6326043921025223);
  }

  lemma Squares13()
    ensures Square(2, 123) == 10633823966279326983230456482242756608
    ensures Square(13, 19) == 1461920290375446110677
  {}

  lemma Long13() returns (c: Long)
    ensures LongRow(13, c) && c.t == 123
  {
    hide Square;
    Squares13();
    c := Long(123, 15, 34, 10633823966279326983230456482242756608, 1461920290375446110677, 7273873983613962);
  }

  lemma Long14() returns (c: Long)
    ensures LongRow(14, c) && c.t == 60
  {
    c := Long(60, 14, 16, 1152921504606846976, 196, 5882252574524729);
    assert Square(2, 60) == 1152921504606846976;
    assert Square(14, 2) == 196;
    hide Square;
  }

  lemma Squares15()
    ensures Square(15, 18) == 1477891880035400390625
    ensures Square(2, 18) == 262144
  {}

  lemma Long15() returns (c: Long)
    ensures LongRow(15, c) && c.t == -18
  {
    hide Square;
    Squares15();
    c := Long(-18, 14, -4, 1477891880035400390625, 262144, 5637710113660432);
  }

  lemma Long17() returns (c: Long)
    ensures LongRow(17, c) && c.t == -1
  {
    c := Long(-1, 13, 0, 9904578032905937, 2, 4952289016452968);
    assert Square(17, 13) == 9904578032905937;
    assert Square(2, 1) == 2;
    hide Square;
  }

  lemma Squares18()
    ensures Square(2, 65) == 36893488147419103232
    ensures Square(18, 3) == 5832
  {}

  lemma Long18() returns (c: Long)
    ensures LongRow(18, c) && c.t == 65
  {
    hide Square;
    Squares18();
    c := Long(65, 13, 16, 36893488147419103232, 5832, 6326043921025223);
  }

  lemma Squares19()
    ensures Square(19, 22) == 13569980418174090907801371961
    ensures Square(2, 41) == 2199023255552
  {}

  lemma Long19() returns (c: Long)
    ensures LongRow(19, c) && c.t == -41
  {
    hide Square;
    Squares19();
    c := Long(-41, 13, -9, 13569980418174090907801371961, 2199023255552, 6170912646745860);
  }

  lemma Squares20()
    ensures Square(20, 23) == 838860800000000000000000000000
    ensures Square(2, 47) == 140737488355328
  {}

  lemma Long20() returns (c: Long)
    ensures LongRow(20, c) && c.t == -47
  {
    hide Square;
    Squares20();
    c := Long(-47, 13, -10, 838860800000000000000000000000, 140737488355328, 5960464477539062);
  }

  lemma Squares21()
    ensures Square(21, 18) == 630880792396715529789561
    ensures Square(2, 27) == 134217728
    ensures Square(21, 12) == 7355827511386641
  {}

  lemma Long21() returns (c: Long)
    ensures LongRow(21, c) && c.t == -27
  {
    hide Square;
    Squares21();
    c := Long(-27, 12, -6, 630880792396715529789561, 134217728, 4700428190802898);
  }

  lemma Long22() returns (c: Long)
    ensures LongRow(22, c) && c.t == 70
  {
    c := Long(70, 12, 16, 1180591620717411303424, 234256, 5039749764007800);
    assert Square(2, 70) == 1180591620717411303424;
    assert Square(22, 4) == 234256;
    hide Square;
  }

  lemma Long23() returns (c: Long)
    ensures LongRow(23, c) && c.t == -11
  {
    c := Long(-11, 12, -2, 11592836324538749809, 2048, 5660564611591186);
    assert Square(23, 14) == 11592836324538749809;
    assert Square(2, 11) == 2048;
    hide Square;
  }

  lemma Squares24()
    ensures Square(2, 80) == 1208925819614629174706176
    ensures Square(24, 6) == 191102976
  {}

  lemma Long24() returns (c: Long)
    ensures LongRow(24, c) && c.t == 80
  {
    hide Square;
    Squares24();
    c := Long(80, 12, 18, 1208925819614629174706176, 191102976, 6326043921025223);
  }

  lemma Squares25()
    ensures Square(2, 108) == 324518553658426726783156020576256
    ensures Square(25, 12) == 59604644775390625
  {}

  lemma Long25() returns (c: Long)
    ensures LongRow(25, c) && c.t == 108
  {
    hide Square;
    Squares25();
    c := Long(108, 12, 24, 324518553658426726783156020576256, 59604644775390625, 5444517870735015);
  }

  lemma Squares26()
    ensures Square(2, 142) == 5575186299632655785383929568162090376495104
    ensures Square(26, 19) == 766467265200361890474622976
  {}

  lemma Long26() returns (c: Long)
    ensures LongRow(26, c) && c.t == 142
  {
    hide Square;
    Squares26();
    c := Long(142, 12, 31, 5575186299632655785383929568162090376495104, 766467265200361890474622976, 7273873983613962);
  }

  lemma Squares27()
    ensures Square(2, 62) == 4611686018427387904
    ensures Square(27, 2) == 729
  {}

  lemma Long27() returns (c: Long)
    ensures LongRow(27, c) && c.t == 62
  {
    hide Square;
    Squares27();
    c := Long(62, 12, 14, 4611686018427387904, 729, 6326043921025223);
  }

  lemma Squares28()
    ensures Square(2, 62) == 4611686018427387904
    ensures Square(28, 2) == 784
    ensures Square(28, 11) == 8293509467471872
  {}

  lemma Long28() returns (c: Long)
    ensures LongRow(28, c) && c.t == 62
  {
    hide Square;
    Squares28();
    c := Long(62, 11, 13, 4611686018427387904, 784, 5882252574524729);
  }

  lemma Long29() returns (c: Long)
    ensures LongRow(29, c) && c.t == -1
  {
    c := Long(-1, 11, 0, 12200509765705829, 2, 6100254882852914);
    assert Square(29, 11) == 12200509765705829;
    assert Square(2, 1) == 2;
    hide Square;
  }

  lemma Squares30()
    ensures Square(30, 18) == 387420489000000000000000000
    ensures Square(2, 36) == 68719476736
  {}

  lemma Long30() returns (c: Long)
    ensures LongRow(30, c) && c.t == -36
  {
    hide Square;
    Squares30();
    c := Long(-36, 11, -7, 387420489000000000000000000, 68719476736, 5637710113660432);
  }

  lemma Squares31()
    ensures Square(31, 34) == 508507766528375922442969666478706045897328683433921
    ensures Square(2, 116) == 83076749736557242056487941267521536
  {}

  lemma Long31() returns (c: Long)
    ensures LongRow(31, c) && c.t == -116
  {
    hide Square;
    Squares31();
    c := Long(-116, 11, -23, 508507766528375922442969666478706045897328683433921, 83076749736557242056487941267521536,
              6120939590690453);
  }

  lemma Squares33()
    ensures Square(33, 15) == 59938945498865420543457
    ensures Square(2, 23) == 8388608
  {}

  lemma Long33() returns (c: Long)
    ensures LongRow(33, c) && c.t == -23
  {
    hide Square;
    Squares33();
    c := Long(-23, 11, -4, 59938945498865420543457, 8388608, 7145279109342744);
  }

  lemma Squares34()
    ensures Square(34, 13) == 81138303245565435904
    ensures Square(2, 14) == 16384
  {}

  lemma Long34() returns (c: Long)
    ensures LongRow(34, c) && c.t == -14
  {
    hide Square;
    Squares34();
    c := Long(-14, 11, -2, 81138303245565435904, 16384, 4952289016452968);
  }

  lemma Squares35()
    ensures Square(2, 140) == 1393796574908163946345982392040522594123776
    ensures Square(35, 17) == 177482997121587371826171875
  {}

  lemma Long35() returns (c: Long)
    ensures LongRow(35, c) && c.t == 140
  {
    hide Square;
    Squares35();
    c := Long(140, 11, 28, 1393796574908163946345982392040522594123776, 177482997121587371826171875, 7853127327759305);
  }

  lemma Squares36()
    ensures Square(2, 68) == 295147905179352825856
    ensures Square(36, 3) == 46656
  {}

  lemma Long36() returns (c: Long)
    ensures LongRow(36, c) && c.t == 68
  {
    hide Square;
    Squares36();
    c := Long(68, 11, 14, 295147905179352825856, 46656, 6326043921025223);
  }

  /** For each radix the power of two at which the loop goes wrong. */
  function LongPower(r: nat): (t: int) {
    match r
    case 3 => -1 case 5 => -1 case 6 => 68 case 7 => 58 case 9 => -1 case 10 => -24 case 11 => 66 case 12 => 74
    case 13 => 123 case 14 => 60 case 15 => -18 case 17 => -1 case 18 => 65 case 19 => -41 case 20 => -47 case 21 => -27
    case 22 => 70 case 23 => -11 case 24 => 80 case 25 => 108 case 26 => 142 case 27 => 62 case 28 => 62 case 29 => -1
    case 30 => -36 case 31 => -116 case 33 => -23 case 34 => -14 case 35 => 140 case _ => 68
  }

  lemma LongTable(r: nat) returns (c: Long)
    requires NeedsBracket(r)
    ensures LongRow(r, c) && c.t == LongPower(r)
  {
    hide LongRow;
    match r
    case 3 => c := Long3();
    case 5 => c := Long5();
    case 6 => c := Long6();
    case 7 => c := Long7();
    case 9 => c := Long9();
    case 10 => c := Long10();
    case 11 => c := Long11();
    case 12 => c := Long12();
    case 13 => c := Long13();
    case 14 => c := Long14();
    case 15 => c := Long15();
    case 17 => c := Long17();
    case 18 => c := Long18();
    case 19 => c := Long19();
    case 20 => c := Long20();
    case 21 => c := Long21();
    case 22 => c := Long22();
    case 23 => c := Long23();
    case 24 => c := Long24();
    case 25 => c := Long25();
    case 26 => c := Long26();
    case 27 => c := Long27();
    case 28 => c := Long28();
    case 29 => c := Long29();
    case 30 => c := Long30();
    case 31 => c := Long31();
    case 33 => c := Long33();
    case 34 => c := Long34();
    case 35 => c := Long35();
    case _ => c := Long36();
  }

  /** In every radix that is no power of two the loop writes some power of two with more digits than it takes. */
  lemma LoopTooLong(r: nat) returns (e: int, w: Decimal)
    requires NeedsBracket(r)
    ensures e == LongPower(r) + 1 && -999 <= e <= 1001 && 1 <= w.digits < LoopDigits(TWO53 / 2, e, r).digits
    ensures w.mant < Pow(r, w.digits) && ReadsBack(w, r, TWO53 / 2, e)
  {
    hide Pow, Pw, Square, Measures, TooFarBelow, MulLog2Radix, DtoaMaxDigits, Free, ReadsBack;
    hide RoundedDigits, Real, LongPower;
    var c := LongTable(r);
    e := c.t + 1;
    assert e - 1 == c.t;
    BelowFailsAboveReads(r, c);
    SquareIsPow(r, c.q);
    w := Decimal(c.n + 1, c.q, c.k);
    DtoaTable(r);
    PowerCanonical(e);
    EstimateExact(e, r);
    FreeLonger(TWO53 / 2, e, r, c.k, DtoaMaxDigits(r), c.q);
  }

  /** The loop gives the fewest digits for every double exactly in the power-of-two radices. */
  lemma LoopShortest(r: nat)
    requires IsRadix(r)
    ensures (forall m: nat, e: int :: Canonical(m, e) && e <= 1024 ==> Fewest(LoopDigits(m, e, r), r, m, e))
      <==> IsPow2Radix(r)
  {
    hide LoopDigits, Fewest, Canonical;
    if IsPow2Radix(r) {
      forall m: nat, e: int | Canonical(m, e) && e <= 1024 ensures Fewest(LoopDigits(m, e, r), r, m, e) {
        Pow2Shortest(m, e, r);
      }
    } else {
      var e, w := LoopTooLong(r);
      PowerCanonical(e);
      NotShortest(LoopDigits(TWO53 / 2, e, r), w, r, TWO53 / 2, e);
    }
  }

  lemma Pow2Shortest(m: nat, e: int, r: nat)
    requires IsPow2Radix(r) && Canonical(m, e) && e <= 1024
    ensures Fewest(LoopDigits(m, e, r), r, m, e)
  {
    hide Pow, MulLog2Radix, DtoaMaxDigits, Free, ReadsBack, Good;
    if Symmetric(m, e) {
      SymmetricShortest(m, e, r);
    } else {
      OneDigit(e, r);
    }
  }

  lemma SymmetricShortest(m: nat, e: int, r: nat)
    requires IsRadix(r) && Canonical(m, e) && e <= 1024 && Symmetric(m, e)
    ensures Fewest(LoopDigits(m, e, r), r, m, e)
  {
    hide Pow, MulLog2Radix, DtoaMaxDigits, Free, ReadsBack, Good, Estimate;
    EstimateExact(e, r);
    DtoaTable(r);
    FreeShortest(m, e, r, 1 + MulLog2Radix(e - 1, r), DtoaMaxDigits(r));
  }

  lemma NotShortest(d: Decimal, w: Decimal, r: nat, m: nat, e: int)
    requires IsRadix(r) && 1 <= w.digits < d.digits && w.mant < Pow(r, w.digits) && ReadsBack(w, r, m, e)
    ensures !Fewest(d, r, m, e)
  {}
}
