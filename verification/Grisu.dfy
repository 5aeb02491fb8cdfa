/**
  * The 128-bit fast path js_dtoa_shortest10 of src/dtoa.c: digits of a double from one multiplication by a
  * tabulated power of ten, refusing every case the approximation cannot decide.
  */
module Grisu {
  import opened Powers
  import opened Rounding
  import opened Limbs
  import opened Doubles
  import opened Nearest
  import opened Shortest
  import FreeLoop

  const U128: int := 0x1_0000_0000_0000_0000_0000_0000_0000_0000

  // ----- the integer operations -----

  /** grisu_mul_hi128: the high part of a 64 by 128-bit product. */
  function MulHi(f: Limb, hi: Limb, lo: Limb): (a: int) {
    (f * hi + f * lo / BASE) % U128
  }

  /** Nothing wraps: the result is the floor of the exact product over 2^64. */
  lemma MulHiFloor(f: Limb, hi: Limb, lo: Limb)
    ensures 0 <= f * (hi * BASE + lo)
    ensures MulHi(f, hi, lo) == f * (hi * BASE + lo) / BASE && 0 <= MulHi(f, hi, lo) < U128
  {
    var c := hi * BASE + lo;
    MulMono(0, f, 0, lo);
    MulMono(0, f, 0, hi);
    var q, s := f * lo / BASE, f * lo % BASE;
    assert f * c == (f * hi + q) * BASE + s by { assert f * c == f * hi * BASE + f * lo; }
    DivModUnique(f * c, BASE, f * hi + q, s);
    MulMono(f, BASE, c, U128);
    assert BASE * U128 == U128 * BASE;
    QuotientBelow(f * c, U128, BASE) by { StrictMul(f, BASE, U128); MulMono(f, f, c, U128); }
  }

  /** grisu_cmp_shr: compare `c` with `b` over a power of two. */
  function CmpShr(c: int, b: int, g: int): (s: int)
    requires g > 0
  {
    var q := b / g;
    var r := b - q * g;
    if c > q then 1 else if c < q then -1 else if r == 0 then 0 else -1
  }

  lemma CmpShrExact(c: int, b: int, g: int)
    requires g > 0
    ensures CmpShr(c, b, g) > 0 <==> c * g > b
    ensures CmpShr(c, b, g) < 0 <==> c * g < b
  {
    var q := b / g;
    assert b == q * g + b % g;
    if c > q {
      StepMul(q + 1, c, g);
      assert (q + 1) * g == q * g + g;
    } else if c < q {
      StepMul(c + 1, q, g);
      assert (c + 1) * g == c * g + g;
    }
  }

  lemma StepMul(a: int, b: int, g: int)
    requires a <= b && g > 0
    ensures a * g <= b * g
  {
    MulNonNegative(b - a, g);
    assert (b - a) * g == b * g - a * g;
  }

  datatype Verdict = Inside | Outside | Unknown

  /** grisu_roundtrip: 1, 0 or -1. */
  function RoundTrip(cv: int, bm: int, bp: int, g: int): (v: Verdict)
    requires g > 0
  {
    if CmpShr(cv, (bm + 12) % U128, g) >= 0 && CmpShr(cv, (bp - 12) % U128, g) <= 0 then Inside
    else if CmpShr(cv, (bm - 4) % U128, g) < 0 || CmpShr(cv, (bp + 4) % U128, g) > 0 then Outside
    else Unknown
  }

  datatype Digits = Known(n: nat) | Ambiguous

  /** grisu_div10k: drop `k` of the 17 digits, using the remainder of the 17th to break an exact tie. */
  function DropDigits(d17: nat, k: nat, rem: int, g: int): (r: Digits)
    requires g > 0
  {
    if k == 0 then Known(d17)
    else
      PowPositive(10, k);
      var s := Pow(10, k);
      var q, r := d17 / s, d17 % s;
      if 2 * r == s then
        if rem < g / 2 then (if rem > 2 then Known(q + 1) else Ambiguous)
        else (if g - rem > 2 then Known(q) else Ambiguous)
      else Known(q + if r > s / 2 then 1 else 0)
  }

  // ----- how far the approximation is off -----

  /** A table entry stands for a power of ten to within one unit of its 128-bit mantissa. */
  datatype Entry = Entry(hi: Limb, lo: Limb, ec: int)

  function Mantissa(t: Entry): (c: nat) {
    t.hi * BASE + t.lo
  }

  /** The power of ten scaled to the entry's exponent. */
  ghost function Exact(alpha: int, ec: int): real {
    Pw(10, alpha) * Pw(2, -ec)
  }

  ghost predicate Accurate(t: Entry, alpha: int) {
    -1.0 <= Exact(alpha, t.ec) - Mantissa(t) as real <= 1.0
  }

  /** `f * 2^(e-64)`, the number a 64-bit mantissa stands for. */
  ghost function Wide(f: nat, e: int): (x: real)
    ensures x >= 0.0
  {
    f as real * Pw(2, e - 64)
  }

  /** The number scaled by 10^alpha and 2^gn: what the product approximates. */
  ghost function Target(x: real, alpha: int, gn: int): (t: real)
  {
    Shifted(x, 10, alpha) * Pw(2, gn)
  }

  /** The product is above the target by less than one and below it by less than two. */
  ghost predicate Near(a: int, t: real) {
    a as real - 1.0 < t < a as real + 2.0
  }

  lemma ProductNear(f: Limb, e: int, t: Entry, alpha: int)
    requires Accurate(t, alpha)
    ensures Near(MulHi(f, t.hi, t.lo), Target(Wide(f, e), alpha, -(e + t.ec)))
  {
    hide Pw, MulHi, Exact, Target, Wide;
    var c, w := Mantissa(t), Exact(alpha, t.ec);
    MulHiFloor(f, t.hi, t.lo);
    var a := MulHi(f, t.hi, t.lo);
    var rest := f * c % BASE;
    assert f * c == a * BASE + rest;
    var u := Target(Wide(f, e), alpha, -(e + t.ec));
    TargetForm(f, e, t.ec, alpha, u);
    NearBound(f, c, w, u, a, rest);
  }

  /** The target times 2^64 is the exact product. */
  lemma TargetForm(f: nat, e: int, ec: int, alpha: int, u: real)
    requires u == Target(Wide(f, e), alpha, -(e + ec))
    ensures u * BASE as real == f as real * Exact(alpha, ec)
  {
    hide Pw;
    var p, q, g, b := Pw(2, e - 64), Pw(10, alpha), Pw(2, -(e + ec)), Pw(2, 64);
    PwNat(2, 64);
    Base64();
    PwAdd(2, e - 64, 64);
    PwAdd(2, e, -(e + ec));
    assert e - 64 + 64 == e && e + -(e + ec) == -ec;
    FiveFactors(f as real, p, q, g, b, Pw(2, e), Pw(2, -ec), u, Exact(alpha, ec));
  }

  lemma FiveFactors(f: real, p: real, q: real, g: real, b: real, pb: real, pbg: real, u: real, w: real)
    requires pb == p * b && pbg == pb * g && u == ((f * p) * q) * g && w == q * pbg
    ensures u * b == f * w
  {
    assert (((f * p) * q) * g) * b == f * p * q * g * b;
    assert f * (q * ((p * b) * g)) == f * p * q * g * b;
  }

  lemma NearBound(f: int, c: int, w: real, u: real, a: int, rest: int)
    requires 0 <= f < BASE && -1.0 <= w - c as real <= 1.0 && u * BASE as real == f as real * w
    requires f * c == a * BASE + rest && 0 <= rest < BASE
    ensures a as real - 1.0 < u < a as real + 2.0
  {
    var b, fr := BASE as real, f as real;
    ErrorBound(fr, c as real, w, fr * c as real, fr * w);
    assert (f * c) as real == fr * c as real;
    assert (a * BASE) as real == a as real * b;
    AddUp(fr * w, rest as real, fr, b, u * b, a as real * b, fr * c as real);
    Unscale(u, a as real, b, u * b, a as real * b);
  }

  lemma AddUp(fw: real, rest: real, f: real, b: real, ub: real, ab: real, fc: real)
    requires fw <= fc + f && fc <= fw + f && 0.0 <= f < b && 0.0 <= rest < b && ub == fw && fc == ab + rest
    ensures -b < ub - ab < 2.0 * b
  {}

  lemma ErrorBound(f: real, c: real, w: real, fc: real, fw: real)
    requires f >= 0.0 && w <= c + 1.0 && c <= w + 1.0 && fc == f * c && fw == f * w
    ensures fw <= fc + f && fc <= fw + f
  {
    UpperProduct(w, c, f, fw, fc);
    UpperProduct(c, w, f, fc, fw);
  }

  lemma UpperProduct(x: real, y: real, f: real, fx: real, fy: real)
    requires f >= 0.0 && x <= y + 1.0 && fx == f * x && fy == f * y
    ensures fx <= fy + f
  {
    RMulMono(x, y + 1.0, f);
    assert (y + 1.0) * f == fy + f;
  }

  lemma Unscale(u: real, a: real, b: real, ub: real, ab: real)
    requires b > 0.0 && ub == u * b && ab == a * b && -b < ub - ab < 2.0 * b
    ensures a - 1.0 < u < a + 2.0
  {
    assert (a - 1.0) * b == ab - b && (a + 2.0) * b == ab + 2.0 * b;
    if u <= a - 1.0 { RMulMono(u, a - 1.0, b); }
    if u >= a + 2.0 { RMulMono(a + 2.0, u, b); }
  }

  // ----- seventeen digits -----

  lemma EvenPower(k: nat)
    requires k >= 4
    ensures Pow(2, k) >= 16 && Pow(2, k) % 2 == 0
  {
    hide Pow;
    PowUnfold(2, k - 1);
    SquareIsPow(2, 4);
    assert Square(2, 4) == 16;
    PowMono(2, 4, k);
  }

  /** From |z - d*g| < g/2 to |y - d| < 1/2, and the sign. */
  lemma UnscaleHalf(y: real, d: real, g: real, yg: real, dg: real)
    requires g > 0.0 && yg == y * g && dg == d * g
    ensures yg > dg ==> y > d
    ensures yg < dg ==> y < d
    ensures yg - dg < 0.5 * g ==> y - d < 0.5
    ensures yg - dg > -0.5 * g ==> y - d > -0.5
  {
    if y <= d { RMulMono(y, d, g); }
    if y >= d { RMulMono(d, y, g); }
    assert (d + 0.5) * g == dg + 0.5 * g && (d - 0.5) * g == dg - 0.5 * g;
    if y >= d + 0.5 { RMulMono(d + 0.5, y, g); }
    if y <= d - 0.5 { RMulMono(y, d - 0.5, g); }
  }

  /** What the product tells about the 17-digit number `d`: nearest, and on which side `y` lies. */
  ghost predicate Decides(y: real, d: int, rem: int, g: int) {
    && -0.5 < y - d as real < 0.5
    && (rem < g / 2 && rem > 2 ==> y > d as real)
    && (rem >= g / 2 && g - rem > 2 ==> y < d as real)
  }

  /** Away from a half the approximate product decides the rounding. */
  lemma NearestFromProduct(y: real, g: int, a: int, yg: real)
    requires g >= 16 && g % 2 == 0 && a >= 0 && yg == y * g as real && Near(a, yg)
    requires !(a % g + 4 >= g / 2 && a % g <= g / 2 + 4)
    ensures Decides(y, a / g + (if a % g > g / 2 then 1 else 0), a % g, g)
  {
    NearestFromParts(y, g, a, yg, a / g, a % g, g / 2);
  }

  lemma NearestFromParts(y: real, g: int, a: int, yg: real, n: int, r: int, h: int)
    requires g >= 16 && g == 2 * h && a == n * g + r && 0 <= r < g && yg == y * g as real && Near(a, yg)
    requires !(r + 4 >= h && r <= h + 4)
    ensures Decides(y, n + (if r > h then 1 else 0), r, g)
  {
    var d := n + if r > h then 1 else 0;
    var p := d * g;
    assert p == if r > h then a - r + g else a - r;
    assert p as real == d as real * g as real;
    UnscaleHalf(y, d as real, g as real, yg, p as real);
  }

  // ----- fewer digits -----

  /** Rounding a coarser multiple from the rounded number and the side of the exact one. */
  lemma CoarseRound(y: real, z: real, d: nat, s: nat, zs: real)
    requires s >= 2 && s % 2 == 0 && zs == z * s as real && zs == y && z >= 0.0
    requires -0.5 < y - d as real < 0.5
    ensures 2 * (d % s) < s ==> Round(NearestEven, z) == d / s
    ensures 2 * (d % s) > s ==> Round(NearestEven, z) == d / s + 1
    ensures 2 * (d % s) == s && y > d as real ==> Round(NearestEven, z) == d / s + 1
    ensures 2 * (d % s) == s && y < d as real ==> Round(NearestEven, z) == d / s
  {
    hide Round;
    var q, r := d / s, d % s;
    assert d == q * s + r;
    assert (q * s) as real == q as real * s as real;
    assert ((q + 1) * s) as real == (q + 1) as real * s as real;
    assert (q + 1) * s == q * s + s;
    UnscaleHalf(z, q as real, s as real, zs, (q * s) as real);
    UnscaleHalf(z, (q + 1) as real, s as real, zs, ((q + 1) * s) as real);
    NearestEvenUnique(z, q);
    NearestEvenUnique(z, q + 1);
  }

  /** Dropping digits rounds the exact number, whenever it is not called ambiguous. */
  lemma DropIsRound(x: real, k: int, d17: nat, rem: int, g: int, j: nat)
    requires x > 0.0 && g > 0 && Decides(Shifted(x, 10, 17 - k), d17, rem, g)
    requires DropDigits(d17, j, rem, g).Known?
    ensures DropDigits(d17, j, rem, g).n == RoundedDigits(x, 10, 17 - j, k)
  {
    hide Pw, Pow, Shifted, Round;
    var y, z := Shifted(x, 10, 17 - k), Shifted(x, 10, 17 - j - k);
    if j == 0 {
      NearestEvenUnique(y, d17);
      assert 17 - j - k == 17 - k;
    } else {
      ShiftAdd(x, 10, 17 - j - k, j);
      assert 17 - j - k + j == 17 - k;
      TenEven(j);
      ShiftNat(z, j);
      CoarseRound(y, z, d17, Pow(10, j), y);
    }
  }

  lemma ShiftNat(z: real, j: nat)
    ensures Shifted(z, 10, j) == z * Pow(10, j) as real
  {
    hide Pw, Pow;
    PwNat(10, j);
  }

  lemma TenEven(j: nat)
    requires j >= 1
    ensures Pow(10, j) >= 2 && Pow(10, j) % 2 == 0
  {
    hide Pow;
    PowUnfold(10, j - 1);
    PowPositive(10, j - 1);
  }

  // ----- the same candidates as the exact loop -----

  /** When 17 digits overflow at an exponent, so does every smaller number of digits. */
  lemma OverflowPersists(x: real, e0: int, p: nat)
    requires x > 0.0 && 1 <= p <= 17 && RoundedDigits(x, 10, 17, e0) >= Pow(10, 17)
    ensures RoundedDigits(x, 10, p, e0) >= Pow(10, p)
  {
    hide Pw, Pow, Shifted, Round;
    if p < 17 {
      var y, z, s, t := Shifted(x, 10, 17 - e0), Shifted(x, 10, p - e0), Pow(10, 17 - p), Pow(10, p);
      ShiftAdd(x, 10, p - e0, 17 - p);
      assert p - e0 + (17 - p) == 17 - e0;
      ShiftNat(z, 17 - p);
      PowAdd(10, p, 17 - p);
      TenEven(p);
      TenEven(17 - p);
      NearestEvenUnique(y, RoundedDigits(x, 10, 17, e0));
      assert (t * s) as real == t as real * s as real;
      AlmostThere(z, t as real, s as real, y, (t * s) as real);
      RoundMono(NearestEven, t as real - 0.5, z);
      NearestEvenUnique(t as real - 0.5, t);
    }
  }

  lemma AlmostThere(z: real, t: real, s: real, y: real, ts: real)
    requires s >= 2.0 && y == z * s && ts == t * s && y >= ts - 0.5
    ensures z >= t - 0.5
  {
    assert (t - 0.5) * s == ts - 0.5 * s;
    if z < t - 0.5 { RMulStrict(z, t - 0.5, s); }
  }

  lemma SameCandidate(x: real, e0: int, p: nat)
    requires 1 <= p <= 17 && InRange(x, 10, e0) && RoundedDigits(x, 10, 17, e0) >= Pow(10, 17)
    ensures Candidate(x, 10, p, e0) == Candidate(x, 10, p, e0 + 1)
  {
    hide Pow, RoundedDigits, Pw;
    OverflowPersists(x, e0, p);
    var g := CandidateShape(x, 10, p, e0);
  }

  // ----- the ends of the rounding interval -----

  /** The exponent gap of a subnormal: how many low mantissa bits must be clear. */
  function Gap(e: int): (l: nat) {
    if e < -1021 then -1021 - e else 0
  }

  /** The mantissa and the two interval ends as 64-bit numbers of the same scale. */
  function WideMant(m: nat): nat { m * 0x800 }

  function WideHigh(m: nat, e: int): nat { (2 * m + Pow(2, Gap(e))) * 0x400 }

  function WideLow(m: nat, e: int): int { (2 * m - Pow(2, Gap(e))) * 0x400 }

  lemma WideFits(m: nat, e: int)
    requires Canonical(m, e)
    ensures WideMant(m) < BASE && WideHigh(m, e) <= BASE - 0x400 && 0 < WideLow(m, e) < WideHigh(m, e)
    ensures 2 * WideLow(m, e) >= WideMant(m)
  {
    hide Pow;
    var t := Pow(2, Gap(e));
    PowPositive(2, Gap(e));
    PowUnfold(2, 0);
    Two53();
    PowMono(2, Gap(e), 52);
    if e < -1021 {
      PowAdd(2, 53 - Gap(e), Gap(e));
      MultipleBelow(m, t, Pow(2, 53 - Gap(e)), TWO53);
    }
  }

  lemma MultipleBelow(m: nat, t: nat, q: nat, top: nat)
    requires t > 0 && m % t == 0 && m < top && top == q * t
    ensures m + t <= top
  {
    var k := m / t;
    assert m == k * t;
    if k >= q { MulMono(q, k, t, t); }
    MulMono(k + 1, q, t, t);
    assert (k + 1) * t == k * t + t;
  }

  lemma WideValues(m: nat, e: int)
    requires Canonical(m, e)
    ensures WideLow(m, e) > 0
    ensures Wide(WideMant(m), e) == Real(m, e)
    ensures Wide(WideHigh(m, e), e) == Real(m, e) + HalfUlp(e)
    ensures Wide(WideLow(m, e), e) == Real(m, e) - HalfUlp(e)
  {
    hide Pw, Canonical, HalfUlp, WideMant, WideHigh, WideLow, Real;
    WideFits(m, e);
    WideEnds(m, e, Wide(WideMant(m), e), Wide(WideHigh(m, e), e), Wide(WideLow(m, e), e));
  }

  lemma WideEnds(m: nat, e: int, w: real, high: real, low: real)
    requires w == WideMant(m) as real * Pw(2, e - 64)
    requires high == WideHigh(m, e) as real * Pw(2, e - 64) && low == WideLow(m, e) as real * Pw(2, e - 64)
    ensures w == Real(m, e) && high == Real(m, e) + HalfUlp(e) && low == Real(m, e) - HalfUlp(e)
  {
    hide Pw, Pow, HalfUlp;
    WidePowers(e);
    EndsOf(m, Pow(2, Gap(e)), Pw(2, e - 64), Pw(2, e - 53), Pw(2, e - 54), Real(m, e), HalfUlp(e));
  }

  lemma WidePowers(e: int)
    ensures Pw(2, e - 53) == 2048.0 * Pw(2, e - 64) && Pw(2, e - 54) == 1024.0 * Pw(2, e - 64)
    ensures HalfUlp(e) == Pow(2, Gap(e)) as real * Pw(2, e - 54)
  {
    hide Pw, Pow;
    PwNat(2, 11);
    PwNat(2, 10);
    PwNat(2, Gap(e));
    SquareIsPow(2, 11);
    SquareIsPow(2, 10);
    assert Square(2, 11) == 0x800 && Square(2, 10) == 0x400;
    PwAdd(2, 11, e - 64);
    PwAdd(2, 10, e - 64);
    PwAdd(2, Gap(e), e - 54);
    assert 11 + (e - 64) == e - 53 && 10 + (e - 64) == e - 54 && Gap(e) + (e - 54) == UlpExp(e) - 1;
  }

  lemma EndsOf(m: nat, t: nat, p: real, p11: real, p10: real, x: real, h: real)
    requires p11 == 2048.0 * p && p10 == 1024.0 * p && x == m as real * p11 && h == t as real * p10
    ensures (m * 0x800) as real * p == x
    ensures ((2 * m + t) * 0x400) as real * p == x + h
    ensures ((2 * m - t) * 0x400) as real * p == x - h
  {
    var a, b := (m * 0x800) as real, (t * 0x400) as real;
    assert a * p == x by { RMulAssoc(m as real, 2048.0, p); }
    assert b * p == h by { RMulAssoc(t as real, 1024.0, p); }
    assert ((2 * m + t) * 0x400) as real == a + b && ((2 * m - t) * 0x400) as real == a - b;
    SumProduct(a, b, p);
  }

  lemma SumProduct(a: real, b: real, p: real)
    ensures (a + b) * p == a * p + b * p && (a - b) * p == a * p - b * p
  {}

  /** Products of a larger mantissa are not smaller, and the highest stays clear of 2^128. */
  lemma MulHiOrder(f: Limb, f': Limb, t: Entry)
    requires f <= 2 * f'
    ensures MulHi(f, t.hi, t.lo) <= 2 * MulHi(f', t.hi, t.lo) + 1
    ensures f' <= BASE - 0x400 ==> MulHi(f', t.hi, t.lo) + 12 < U128
  {
    hide MulHi;
    MulHiFloor(f, t.hi, t.lo);
    MulHiFloor(f', t.hi, t.lo);
    var c := Mantissa(t);
    MulMono(f, 2 * f', c, c);
    assert (2 * f') * c == 2 * (f' * c);
    if f' <= BASE - 0x400 {
      MulMono(f', BASE - 0x400, c, U128);
    }
  }

  /** The verdict is right: a candidate called inside reads back, one called outside does not. */
  lemma VerdictSound(m: nat, e: int, k: int, c: Decimal, cv: nat, bm: int, bp: int, gn: nat, g: int)
    requires Canonical(m, e) && Symmetric(m, e) && g == Pow(2, gn) && g > 0
    requires DecValue(c, 10) == Shifted(cv as real, 10, k - 17) && cv > 0
    requires Near(bm, Target(Real(m, e) - HalfUlp(e), 17 - k, gn))
    requires Near(bp, Target(Real(m, e) + HalfUlp(e), 17 - k, gn))
    requires 12 <= bm && bm + 12 < U128 && 12 <= bp && bp + 12 < U128
    ensures RoundTrip(cv, bm, bp, g) == Inside ==> ReadsBack(c, 10, m, e)
    ensures RoundTrip(cv, bm, bp, g) == Outside ==> !ReadsBack(c, 10, m, e)
  {
    hide Pw, Pow, Shifted, Real, HalfUlp, ToDouble, Target, UnitsOf, CmpShr;
    var x, h, w := Real(m, e), HalfUlp(e), DecValue(c, 10);
    CmpShrExact(cv, bm + 12, g);
    CmpShrExact(cv, bp - 12, g);
    CmpShrExact(cv, bm - 4, g);
    CmpShrExact(cv, bp + 4, g);
    Compare(cv, x - h, k, gn, g, bm);
    Compare(cv, x + h, k, gn, g, bp);
    IntervalSymmetric(w, m, e);
  }

  /** Comparing the candidate with an interval end through the approximate product. */
  lemma Compare(cv: nat, b: real, k: int, gn: nat, g: int, bb: int)
    requires g == Pow(2, gn) && g > 0 && Near(bb, Target(b, 17 - k, gn))
    ensures cv * g >= bb + 2 ==> Shifted(cv as real, 10, k - 17) > b
    ensures cv * g <= bb - 1 ==> Shifted(cv as real, 10, k - 17) < b
  {
    hide Pw, Pow, Shifted;
    var y, w := Shifted(b, 10, 17 - k), Shifted(cv as real, 10, k - 17);
    PwNat(2, gn);
    assert (cv * g) as real == cv as real * g as real;
    UnscaleHalf(cv as real, y, g as real, (cv * g) as real, Target(b, 17 - k, gn));
    ShiftInverse(b, 10, 17 - k);
    assert -(17 - k) == k - 17;
    ShiftMono(cv as real, y, 10, k - 17);
    ShiftMono(y, cv as real, 10, k - 17);
  }

  // ----- when the approximation cannot decide -----

  const DOUBT: real := 0.000000000000001

  ghost predicate Within(y: real, t: int) {
    -DOUBT <= y - t as real <= DOUBT
  }

  /** Within 10^-15 of an integer. */
  ghost predicate Close(y: real) {
    exists t: int :: Within(y, t)
  }

  /**
    * The double, at 17 digits before exponent `k`, is within 10^-15 of a whole or half digit, or an end of its rounding
    * interval is within 10^-15 of a whole one.
    */
  ghost predicate Doubtful(m: nat, e: int, k: int) {
    || Close(2.0 * Shifted(Real(m, e), 10, 17 - k))
    || Close(Shifted(Real(m, e) - HalfUlp(e), 10, 17 - k)) || Close(Shifted(Real(m, e) + HalfUlp(e), 10, 17 - k))
  }

  lemma CloseTo(y: real, t: int, g: int, yg: real, tg: int)
    requires g >= 0x1000_0000_0000_0000 && yg == y * g as real && tg == t * g && -16.0 <= yg - tg as real <= 16.0
    ensures Close(y)
  {
    var d, gr := y - t as real, g as real;
    assert tg as real == t as real * gr;
    assert d * gr == yg - tg as real;
    if d > DOUBT { RMulMono(DOUBT, d, gr); }
    if d < -DOUBT { RMulMono(d, -DOUBT, gr); }
    assert Within(y, t);
  }

  /** What a remainder next to zero or to a whole tells: the number is next to the digits. */
  ghost predicate Tells(y: real, d: int, rem: int, g: int) {
    0 <= rem < g && (rem <= 2 || g - rem <= 2 ==> -4.0 <= y * g as real - (d * g) as real <= 4.0)
  }

  lemma RemainderTells(y: real, g: int, a: int, yg: real, n: int, r: int)
    requires g >= 16 && g % 2 == 0 && a == n * g + r && 0 <= r < g && yg == y * g as real && Near(a, yg)
    ensures Tells(y, n + (if r > g / 2 then 1 else 0), r, g)
  {
    assert (n + 1) * g == n * g + g;
  }

  /** A remainder next to a half: the number is next to a half digit. */
  lemma HalfDoubts(y: real, g: int, a: int, yg: real, n: int, r: int)
    requires g >= 0x1000_0000_0000_0000 && g % 2 == 0 && a == n * g + r && 0 <= r < g
    requires yg == y * g as real && Near(a, yg)
    requires r + 4 >= g / 2 && r <= g / 2 + 4
    ensures Close(2.0 * y)
  {
    assert (2 * n + 1) * g == 2 * (n * g) + g;
    assert (2.0 * y) * g as real == 2.0 * yg;
    CloseTo(2.0 * y, 2 * n + 1, g, 2.0 * yg, (2 * n + 1) * g);
  }

  /** Digits that cannot be dropped: the number is next to a whole digit. */
  lemma DropDoubts(y: real, d: nat, j: nat, rem: int, g: int)
    requires g >= 0x1000_0000_0000_0000 && Tells(y, d, rem, g) && DropDigits(d, j, rem, g).Ambiguous?
    ensures Close(2.0 * y)
  {
    hide Pow;
    var yg := y * g as real;
    assert (2 * d) * g == 2 * (d * g);
    assert (2.0 * y) * g as real == 2.0 * yg;
    CloseTo(2.0 * y, 2 * d, g, 2.0 * yg, (2 * d) * g);
  }

  /** A candidate that cannot be judged: an end of the interval is next to a whole digit. */
  lemma VerdictDoubts(m: nat, e: int, k: int, cv: nat, bm: int, bp: int, gn: nat, g: int)
    requires g == Pow(2, gn) && g >= 0x1000_0000_0000_0000
    requires Near(bm, Target(Real(m, e) - HalfUlp(e), 17 - k, gn))
    requires Near(bp, Target(Real(m, e) + HalfUlp(e), 17 - k, gn))
    requires 12 <= bm && bm + 12 < U128 && 12 <= bp && bp + 12 < U128
    requires RoundTrip(cv, bm, bp, g).Unknown?
    ensures Doubtful(m, e, k)
  {
    hide Pw, Pow, Shifted, Real, HalfUlp, CmpShr, Close;
    CmpShrExact(cv, bm + 12, g);
    CmpShrExact(cv, bp - 12, g);
    CmpShrExact(cv, bm - 4, g);
    CmpShrExact(cv, bp + 4, g);
    PwNat(2, gn);
    var low, high := Shifted(Real(m, e) - HalfUlp(e), 10, 17 - k), Shifted(Real(m, e) + HalfUlp(e), 10, 17 - k);
    if cv * g < bm + 12 {
      CloseTo(low, cv, g, Target(Real(m, e) - HalfUlp(e), 17 - k, gn), cv * g);
    } else {
      CloseTo(high, cv, g, Target(Real(m, e) + HalfUlp(e), 17 - k, gn), cv * g);
    }
  }

  /** Entries as the source tabulates them: the mantissa fills its 128 bits. */
  ghost predicate NormalTable(table: seq<Entry>) {
    forall i :: 0 <= i < |table| ==> table[i].hi >= 0x8000_0000_0000_0000
  }

  lemma ExactSize(t: Entry, alpha: int)
    requires Accurate(t, alpha) && t.hi >= 0x8000_0000_0000_0000
    ensures Pw(2, 126) < Exact(alpha, t.ec) < Pw(2, 129)
  {
    hide Pw, Pow, Exact;
    PwNat(2, 126);
    PwNat(2, 129);
    WordPowers();
    MulMono(0x8000_0000_0000_0000, t.hi, BASE, BASE);
  }

  lemma WordPowers()
    ensures Pow(2, 126) == 0x4000_0000_0000_0000_0000_0000_0000_0000
    ensures Pow(2, 129) == 0x2_0000_0000_0000_0000_0000_0000_0000_0000
  {
    SquareIsPow(2, 126);
    SquareIsPow(2, 129);
  }

  /** The scaled double lies between 10^15 and 10^17 in size. */
  lemma ScaledSize(e: int, e0: int, k: int)
    requires Estimate(10, e, e0) && (k == e0 || k == e0 + 1)
    ensures Pw(10, 15) <= Pw(2, e - 1) * Pw(10, 17 - k) < Pw(10, 17)
  {
    hide Pw;
    var a := 17 - k;
    PwAdd(10, e0 - 1, a);
    PwAdd(10, e0, a);
    PwMono(10, 15, e0 - 1 + a);
    PwMono(10, e0 + a, 17);
    ScaleRange(Pw(2, e - 1), Pw(10, e0 - 1), Pw(10, e0), Pw(10, a), Pw(10, e0 - 1 + a), Pw(10, e0 + a));
  }

  /** With normal entries the scaling bits stay in their range. */
  lemma ScalingBits(t: Entry, e: int, e0: int, k: int)
    requires Estimate(10, e, e0) && (k == e0 || k == e0 + 1) && Accurate(t, 17 - k) && t.hi >= 0x8000_0000_0000_0000
    ensures 60 <= -(e + t.ec) <= 90
  {
    hide Pw, Exact, Estimate, Accurate;
    ExactSize(t, 17 - k);
    ScaledSize(e, e0, k);
    var u, w := e - 1 + t.ec, Exact(17 - k, t.ec);
    PwAdd(2, u, -t.ec);
    assert u + -t.ec == e - 1;
    var p := Pw(2, e - 1) * Pw(10, 17 - k);
    assert p == w * Pw(2, u) by { ExactTimes(17 - k, t.ec, u); }
    SizePowers();
    if u <= -80 {
      PwMono(2, u, -80);
      ProductBelow(w, Pw(2, 129), Pw(2, u), Pw(2, -80), p, Pw(2, 49)) by { PwAdd(2, 129, -80); }
    }
    if u >= -69 {
      PwMono(2, -69, u);
      ProductBelow(Pw(2, 126), w, Pw(2, -69), Pw(2, u), Pw(2, 57), p) by { PwAdd(2, 126, -69); }
    }
  }

  lemma ExactTimes(alpha: int, ec: int, u: int)
    requires Pw(2, u - ec) == Pw(2, u) * Pw(2, -ec)
    ensures Pw(2, u - ec) * Pw(10, alpha) == Exact(alpha, ec) * Pw(2, u)
  {
    hide Pw;
    Reorder(Pw(2, u), Pw(2, -ec), Pw(10, alpha));
  }

  lemma Reorder(a: real, b: real, c: real)
    ensures (a * b) * c == (c * b) * a
  {}

  lemma ProductBelow(a: real, b: real, c: real, d: real, ac: real, bd: real)
    requires 0.0 < a < b && 0.0 < c <= d && ac == a * c && bd == b * d
    ensures ac < bd
  {
    RMulStrict(a, b, c);
    RMulMono(c, d, b);
  }

  lemma SizePowers()
    ensures Pw(2, 49) < Pw(10, 15) && Pw(10, 17) < Pw(2, 57)
  {
    hide Pw, Pow;
    PwNat(2, 49);
    PwNat(10, 15);
    PwNat(10, 17);
    PwNat(2, 57);
    TenPowers();
    TensAre();
    SmallTwos();
  }

  /** The table reaches every finite double. */
  lemma IndexRange(m: nat, e: int, e0: int)
    requires Canonical(m, e) && e <= 1024 && Estimate(10, e, e0)
    ensures -325 <= e0 <= 308
  {
    hide Pw, Pow;
    assert e >= -1073;
    LargePowers();
    if e0 > 308 {
      PwMono(10, 308, e0 - 1);
      PwNat(10, 308);
      PwNat(2, 1023);
      PwMono(2, e - 1, 1023);
    }
    if e0 < -325 {
      PwMono(10, e0, -326);
      PwMono(2, -1074, e - 1);
      PwNat(10, 326);
      PwNat(2, 1074);
      PwAdd(10, 326, -326);
      PwAdd(2, 1074, -1074);
      Inverses(Pw(10, 326), Pw(10, -326), Pw(2, 1074), Pw(2, -1074), Pw(2, 0));
    }
  }

  lemma Inverses(a: real, a': real, b: real, b': real, one: real)
    requires a > b > 0.0 && a' > 0.0 && b' > 0.0 && one == a * a' && one == b * b'
    ensures a' < b'
  {
    if a' >= b' { ProductBelow(b, a, b', a', one, one); }
  }

  lemma LargePowers()
    ensures Pow(10, 308) > Pow(2, 1023) && Pow(10, 326) > Pow(2, 1074)
  {
    hide Pow;
    SmallerPowers();
    PowPow(10, 28, 11);
    PowPow(2, 93, 11);
    PowLess(Pow(2, 93), Pow(10, 28), 11);
    PowAdd(10, 308, 18);
    PowAdd(2, 1023, 51);
    PowPositive(2, 51);
    StrictProduct(Pow(2, 1023), Pow(10, 308), Pow(2, 51), Pow(10, 18));
  }

  lemma StrictProduct(a: int, b: int, c: int, d: int)
    requires 0 <= a < b && 0 < c <= d
    ensures a * c < b * d
  {
    MulMono(a + 1, b, c, d);
    assert (a + 1) * c == a * c + c;
  }

  lemma SmallerPowers()
    ensures Pow(10, 28) > Pow(2, 93) && Pow(10, 18) > Pow(2, 51)
  {
    hide Pow;
    TenPowers();
    TensAre();
    LargeTwos();
  }

  lemma TensAre()
    ensures Pow(10, 28) == 10000000000000000000000000000 && Pow(10, 15) == 1000000000000000
  {
    hide Pow;
    SquareIsPow(10, 28);
    SquareIsPow(10, 15);
    assert Square(10, 28) == 10000000000000000000000000000;
    assert Square(10, 15) == 1000000000000000;
  }

  lemma LargeTwos()
    ensures Pow(2, 93) == 9903520314283042199192993792 && Pow(2, 51) == 2251799813685248
  {
    hide Pow;
    SquareIsPow(2, 93);
    SquareIsPow(2, 51);
    assert Square(2, 93) == 9903520314283042199192993792;
    assert Square(2, 51) == 2251799813685248;
  }

  lemma SmallTwos()
    ensures Pow(2, 49) == 562949953421312 && Pow(2, 57) == 144115188075855872
  {
    hide Pow;
    SquareIsPow(2, 49);
    SquareIsPow(2, 57);
    assert Square(2, 49) == 562949953421312;
    assert Square(2, 57) == 144115188075855872;
  }

  lemma {:induction false} PowLess(a: nat, b: nat, k: nat)
    requires a < b && k >= 1
    ensures Pow(a, k) < Pow(b, k)
    decreases k
  {
    hide Pow;
    PowUnfold(a, k - 1);
    PowUnfold(b, k - 1);
    PowUnfold(a, 0);
    PowUnfold(b, 0);
    if k > 1 {
      PowLess(a, b, k - 1);
      MulMono(a, b, Pow(a, k - 1), Pow(b, k - 1) - 1);
      assert b * (Pow(b, k - 1) - 1) == b * Pow(b, k - 1) - b;
    }
  }

  // ----- the fast path -----

  const ALPHA_MIN: int := -294
  const ALPHA_COUNT: nat := 637

  /** The table hypothesis: every entry is accurate for its power of ten. */
  ghost predicate AccurateTable(table: seq<Entry>) {
    |table| == ALPHA_COUNT && forall i :: 0 <= i < |table| ==> Accurate(table[i], i + ALPHA_MIN)
  }

  /** What the first stage hands on: 17 digits, the side of the exact number, and the interval ends. */
  ghost predicate Stage(m: nat, e: int, e0: int, k: int, d17: nat, rem: int, gn: int, bm: int, bp: int) {
    && (k == e0 || (k == e0 + 1 && RoundedDigits(Real(m, e), 10, 17, e0) >= Pow(10, 17)))
    && gn >= 60 && Pow(2, gn) >= 0x1000_0000_0000_0000 && Pow(10, 16) <= d17 < Pow(10, 17)
    && Decides(Shifted(Real(m, e), 10, 17 - k), d17, rem, Pow(2, gn))
    && Tells(Shifted(Real(m, e), 10, 17 - k), d17, rem, Pow(2, gn))
    && Near(bm, Target(Real(m, e) - HalfUlp(e), 17 - k, gn))
    && Near(bp, Target(Real(m, e) + HalfUlp(e), 17 - k, gn))
    && 12 <= bm && bm + 12 < U128 && 12 <= bp && bp + 12 < U128
  }

  /** The 17-digit number fits a 64-bit word. */
  lemma DigitsFit(m: nat, e: int, e0: int, k: int, d: int)
    requires Canonical(m, e) && Estimate(10, e, e0) && k >= e0
    requires -0.5 < Shifted(Real(m, e), 10, 17 - k) - d as real < 0.5
    ensures 0 <= d <= 2 * Pow(10, 17) && d == RoundedDigits(Real(m, e), 10, 17, k)
  {
    hide Pw, Pow, Shifted, Round, Real;
    var x := Real(m, e);
    EstimateRange(m, e, 10, e0);
    NearestEvenUnique(Shifted(x, 10, 17 - k), d);
    PwMono(10, e0, k);
    ShiftPw(10, k, 17 - k);
    assert k + (17 - k) == 17;
    PwNat(10, 17);
    ShiftTwice(x, Pw(10, k), 10, 17 - k);
  }

  /** One attempt: the products at exponent `k` and the 17 digits they give. */
  method Attempt(t: Entry, m: Limb, e: int, e0: int, k: int)
    returns (ok: bool, d17: Limb, rem: int, gn: int, bm: int, bp: int)
    requires Canonical(m, e) && Estimate(10, e, e0) && k >= e0 && Accurate(t, 17 - k)
    ensures gn == -(e + t.ec)
    ensures !ok ==> gn < 60 || gn > 90 || Close(2.0 * Shifted(Real(m, e), 10, 17 - k))
    ensures ok ==>
      && gn >= 60 && Pow(2, gn) >= 0x1000_0000_0000_0000
      && d17 == RoundedDigits(Real(m, e), 10, 17, k) && d17 < BASE - 1
      && Decides(Shifted(Real(m, e), 10, 17 - k), d17, rem, Pow(2, gn))
      && Tells(Shifted(Real(m, e), 10, 17 - k), d17, rem, Pow(2, gn))
      && Near(bm, Target(Real(m, e) - HalfUlp(e), 17 - k, gn))
      && Near(bp, Target(Real(m, e) + HalfUlp(e), 17 - k, gn))
      && bm + 12 < U128 && bp + 12 < U128
      && (d17 >= 1000 ==> bm >= 12 && bp >= 12)
  {
    hide Pow, Pw, Real, Target, Shifted, HalfUlp, Near, Decides, RoundedDigits, Canonical, Estimate, Accurate, MulHi;
    hide WideMant, WideHigh, WideLow, Tells, Close;
    WideFits(m, e);
    var fw, fp, fm := WideMant(m), WideHigh(m, e), WideLow(m, e);
    var a2 := MulHi(fw, t.hi, t.lo);
    bp := MulHi(fp, t.hi, t.lo);
    bm := MulHi(fm, t.hi, t.lo);
    gn := -(e + t.ec);
    ok, d17, rem := false, 0, 0;
    Products(t, m, e, k, a2, bm, bp);
    if gn < 60 || gn > 90 {
      return;
    }
    var g := Pow(2, gn);
    EvenPower(gn);
    var n, r := a2 / g, a2 % g;
    rem := r;
    ProductParts(Real(m, e), 17 - k, gn, a2);
    if r + 4 >= g / 2 && r <= g / 2 + 4 {
      return;
    }
    NearestHere(Real(m, e), 17 - k, gn, a2);
    if r > g / 2 {
      n := n + 1;
    }
    DecidesHalf(Shifted(Real(m, e), 10, 17 - k), n, r, g);
    DigitsFit(m, e, e0, k, n);
    TenPowers();
    LargeProduct(a2, g, n);
    d17 := n % BASE;
    ok := true;
  }

  /** What the quotient and the remainder of the product tell. */
  lemma ProductParts(x: real, alpha: int, gn: nat, a: int)
    requires gn >= 60 && a >= 0 && Near(a, Target(x, alpha, gn))
    ensures
      var g := Pow(2, gn);
      && g >= 0x1000_0000_0000_0000
      && Tells(Shifted(x, 10, alpha), a / g + (if a % g > g / 2 then 1 else 0), a % g, g)
      && (a % g + 4 >= g / 2 && a % g <= g / 2 + 4 ==> Close(2.0 * Shifted(x, 10, alpha)))
  {
    hide Pw, Pow, Shifted, Close, Tells, Near;
    EvenPower(gn);
    PwNat(2, gn);
    PowMono(2, 60, gn);
    assert Pow(2, 60) == 0x1000_0000_0000_0000 by { SixtyBits(); }
    var g := Pow(2, gn);
    var y := Shifted(x, 10, alpha);
    RemainderTells(y, g, a, Target(x, alpha, gn), a / g, a % g);
    if a % g + 4 >= g / 2 && a % g <= g / 2 + 4 { HalfDoubts(y, g, a, Target(x, alpha, gn), a / g, a % g); }
  }

  lemma SixtyBits()
    ensures Pow(2, 60) == 0x1000_0000_0000_0000
  {
    SquareIsPow(2, 60);
  }

  lemma Products(t: Entry, m: nat, e: int, k: int, a2: int, bm: int, bp: int)
    requires Canonical(m, e) && Accurate(t, 17 - k)
    requires WideMant(m) < BASE && WideHigh(m, e) < BASE && 0 < WideLow(m, e) < BASE
    requires a2 == MulHi(WideMant(m), t.hi, t.lo) && bm == MulHi(WideLow(m, e), t.hi, t.lo)
    requires bp == MulHi(WideHigh(m, e), t.hi, t.lo)
    ensures a2 >= 0 && Near(a2, Target(Real(m, e), 17 - k, -(e + t.ec)))
    ensures Near(bm, Target(Real(m, e) - HalfUlp(e), 17 - k, -(e + t.ec)))
    ensures Near(bp, Target(Real(m, e) + HalfUlp(e), 17 - k, -(e + t.ec)))
    ensures bm + 12 < U128 && bp + 12 < U128
    ensures a2 >= 100 ==> bm >= 12 && bp >= 12
  {
    hide Pow, Pw, Real, Target, Shifted, HalfUlp, Near, Canonical, Accurate, MulHi, WideMant, WideHigh, WideLow;
    var fw, fp, fm := WideMant(m), WideHigh(m, e), WideLow(m, e);
    WideFits(m, e);
    WideValues(m, e);
    ProductNear(fw, e, t, 17 - k);
    ProductNear(fp, e, t, 17 - k);
    ProductNear(fm, e, t, 17 - k);
    MulHiFloor(fw, t.hi, t.lo);
    MulHiOrder(fw, fm, t);
    MulHiOrder(fw, fp, t);
  }

  lemma DecidesHalf(y: real, d: int, rem: int, g: int)
    requires Decides(y, d, rem, g)
    ensures -0.5 < y - d as real < 0.5
  {}

  lemma LargeProduct(a: int, g: int, n: int)
    requires a >= 0 && g >= 16 && n <= a / g + 1
    ensures n >= 1000 ==> a >= 100
  {
    var q := a / g;
    assert a >= q * g;
    if n >= 1000 { MulMono(999, q, 16, g); }
  }

  lemma NearestHere(x: real, alpha: int, gn: nat, a: int)
    requires gn >= 4 && a >= 0 && Near(a, Target(x, alpha, gn)) && Pow(2, gn) > 0
    requires !(a % Pow(2, gn) + 4 >= Pow(2, gn) / 2 && a % Pow(2, gn) <= Pow(2, gn) / 2 + 4)
    ensures
      var g := Pow(2, gn);
      Decides(Shifted(x, 10, alpha), a / g + (if a % g > g / 2 then 1 else 0), a % g, g)
  {
    hide Pw, Pow, Shifted;
    EvenPower(gn);
    PwNat(2, gn);
    NearestFromProduct(Shifted(x, 10, alpha), Pow(2, gn), a, Target(x, alpha, gn));
  }

  /** What the estimate rules out: an exponent past the table, or digits at neither exponent. */
  ghost predicate OffScale(m: nat, e: int, e0: int) {
    var first, second := RoundedDigits(Real(m, e), 10, 17, e0), RoundedDigits(Real(m, e), 10, 17, e0 + 1);
    || e0 < -325 || e0 > 308 || first < Pow(10, 16) || second >= Pow(10, 17)
    || (first >= Pow(10, 17) && second < Pow(10, 16))
  }

  lemma OnScale(m: nat, e: int, e0: int)
    requires Canonical(m, e) && e <= 1024 && Estimate(10, e, e0)
    ensures !OffScale(m, e, e0)
  {
    hide Pw, Pow, Real, RoundedDigits, Canonical, Estimate;
    var x := Real(m, e);
    IndexRange(m, e, e0);
    EstimateRange(m, e, 10, e0);
    var g := CandidateShape(x, 10, 17, e0);
    DigitsAtLeast(x, 10, 16, e0 - 1);
    DigitsSplit(x, 10, 17, e0);
    assert e0 + 1 - 1 == e0;
    DigitsBelow(x, 10, 17, e0 + 1);
  }

  /** The first loop: 17 digits at the estimated exponent, or at the next when they overflow. */
  method SeventeenDigits(table: seq<Entry>, m: Limb, e: int, e0: int)
    returns (ok: bool, k: int, d17: Limb, rem: int, gn: int, bm: int, bp: int)
    requires AccurateTable(table) && Canonical(m, e) && Estimate(10, e, e0)
    ensures ok ==> Stage(m, e, e0, k, d17, rem, gn, bm, bp)
    ensures !ok && NormalTable(table) ==>
      || Close(2.0 * Shifted(Real(m, e), 10, 17 - e0)) || Close(2.0 * Shifted(Real(m, e), 10, 16 - e0))
      || OffScale(m, e, e0)
  {
    hide Pw, Pow, Real, Target, HalfUlp, Near, Decides, RoundedDigits, Canonical, Estimate, Accurate, Tells, Close;
    TenPowers();
    k, d17, rem, gn, bm, bp := e0, 0, 0, 0, 0, 0;
    var attempt := 0;
    while true
      invariant 0 <= attempt <= 2
      invariant attempt == 0 ==> k == e0
      invariant attempt == 1 ==> k == e0 + 1 && RoundedDigits(Real(m, e), 10, 17, e0) >= Pow(10, 17)
      invariant attempt == 2 ==> RoundedDigits(Real(m, e), 10, 17, e0 + 1) >= Pow(10, 17)
      decreases 2 - attempt
    {
      if attempt >= 2 {
        return false, k, d17, rem, gn, bm, bp;
      }
      var alpha := 17 - k;
      var idx := alpha - ALPHA_MIN;
      if idx < 0 || idx >= ALPHA_COUNT {
        return false, k, d17, rem, gn, bm, bp;
      }
      ok, d17, rem, gn, bm, bp := Attempt(table[idx], m, e, e0, k);
      assert 17 - (e0 + 1) == 16 - e0;
      if !ok {
        if NormalTable(table) { ScalingBits(table[idx], e, e0, k); }
        return;
      }
      if d17 >= 100000000000000000 {
        k := k + 1;
        attempt := attempt + 1;
        continue;
      }
      if d17 < 10000000000000000 {
        ok := false;
        return;
      }
      break;
    }
  }

  /** The candidate of `p` digits, from the 17 digits; none when a tie cannot be decided. */
  method FewerDigits(m: Limb, e: int, e0: int, k: int, d17: Limb, rem: int, gn: int, p: nat, ghost bm: int,
                     ghost bp: int)
    returns (ok: bool, mant: Limb, k1: int)
    requires Canonical(m, e) && Estimate(10, e, e0) && Stage(m, e, e0, k, d17, rem, gn, bm, bp) && 1 <= p <= 17
    ensures ok ==> Decimal(mant, p, k1) == Candidate(Real(m, e), 10, p, e0) && k <= k1 <= k + 1 && 0 < mant < Pow(10, p)
    ensures !ok ==> Close(2.0 * Shifted(Real(m, e), 10, 17 - k))
  {
    hide Pw, Pow, Real, Target, HalfUlp, Near, Decides, RoundedDigits, Canonical, Estimate, DropDigits, Shifted;
    hide Tells, Close;
    ghost var x := Real(m, e);
    EstimateRange(m, e, 10, e0);
    ghost var s := CandidateShape(x, 10, p, e0);
    PowPositive(10, p - 1);
    if k == e0 + 1 { SameCandidate(x, e0, p); }
    PowMono(10, p, 18);
    TenPowers();
    PowPositive(2, gn);
    var g := Pow(2, gn);
    ok, mant, k1 := false, 0, k;
    var raw := DropDigits(d17, 17 - p, rem, g);
    if raw.Ambiguous? {
      DropDoubts(Shifted(x, 10, 17 - k), d17, 17 - p, rem, g);
      return;
    }
    DropIsRound(x, k, d17, rem, g, 17 - p);
    var n := raw.n;
    if n >= Pow(10, p) {
      raw := DropDigits(d17, 18 - p, rem, g);
      if raw.Ambiguous? {
        DropDoubts(Shifted(x, 10, 17 - k), d17, 18 - p, rem, g);
        return;
      }
      DropIsRound(x, k, d17, rem, g, 18 - p);
      OneMore(x, p, k);
      n := raw.n;
      k1 := k + 1;
    }
    ok := true;
    mant := n;
  }

  lemma OneMore(x: real, p: nat, k: int)
    requires x >= 0.0
    ensures RoundedDigits(x, 10, 17 - (18 - p), k) == RoundedDigits(x, 10, p, k + 1)
  {
    hide Shifted;
    assert 17 - (18 - p) - k == p - (k + 1);
  }

  /** The candidate in units of the 17th digit. */
  lemma UnitsOfLast(mant: nat, p: nat, k1: int, k: int)
    requires 1 <= p <= 17 && 0 < mant < Pow(10, p) && k <= k1 <= k + 1
    ensures
      var cv := mant * Pow(10, 17 - p) * (if k1 != k then 10 else 1);
      && 0 < cv < BASE && 0 < mant * Pow(10, 17 - p) < BASE
      && DecValue(Decimal(mant, p, k1), 10) == Shifted(cv as real, 10, k - 17)
  {
    hide Pow, Shifted;
    FinerGrid(mant, 10, k1 - p, k - 17);
    PowUnfold(10, 17 - p);
    PowPositive(10, 17 - p);
    var z := Pow(10, 17 - p);
    var mz := mant * z;
    MulMono(1, mant, 1, z);
    PowAdd(10, p, 17 - p);
    MulMono(mant, Pow(10, p), z, z);
    TenPowers();
    assert k1 - p - (k - 17) == if k1 != k then 17 - p + 1 else 17 - p;
    TenTimes(mant, z, mz);
  }

  lemma TenTimes(m: int, z: int, mz: int)
    requires mz == m * z
    ensures m * (10 * z) == mz * 10
  {}

  /** A candidate expressed in units of the 17th digit. */
  method InLastUnits(raw: Limb, ps: nat, k1: int, k0: int) returns (cv: Limb)
    requires 1 <= ps <= 17 && 0 < raw < Pow(10, ps) && k0 <= k1 <= k0 + 1
    ensures cv > 0 && DecValue(Decimal(raw, ps, k1), 10) == Shifted(cv as real, 10, k0 - 17)
  {
    hide Pow, Shifted;
    UnitsOfLast(raw, ps, k1, k0);
    cv := raw * Pow(10, 17 - ps) % BASE;
    if k1 != k0 {
      cv := cv * 10 % BASE;
    }
  }

  /**
    * js_dtoa_shortest10. Whenever it answers, its digits, their number and the exponent are those of the exact
    * free-format loop. It declines a finite double only next to a decision: within 10^-15 of a unit of the 17th digit.
    * The caller keeps out normalised powers of two.
    */
  method ShortestFast(table: seq<Entry>, m: Limb, e: int, e0: int) returns (ok: bool, mant: Limb, p: nat, k: int)
    requires AccurateTable(table) && Canonical(m, e) && Estimate(10, e, e0)
    requires !(m == TWO53 / 2 && e >= -1021)
    ensures ok ==> Decimal(mant, p, k) == Free(m, e, 10, e0, 17)
    ensures !ok && NormalTable(table) && e <= 1024 ==> Doubtful(m, e, e0) || Doubtful(m, e, e0 + 1)
  {
    hide Pw, Pow, Real, Target, HalfUlp, Near, Decides, Canonical, Estimate, RoundTrip, Shifted, ReadsBack;
    hide Candidate, Strip, AccurateTable, RoundedDigits, NormalTable, Tells, Close, OffScale;
    assert 17 - (e0 + 1) == 16 - e0;
    mant, p, k := 0, 0, 0;
    var k0, d17, rem, gn, bm, bp;
    ok, k0, d17, rem, gn, bm, bp := SeventeenDigits(table, m, e, e0);
    if !ok {
      if e <= 1024 { OnScale(m, e, e0); }
      return;
    }
    PowPositive(2, gn);
    var q, first := 17, true;
    while true
      invariant 1 <= q <= 17
      invariant first ==> q == 17
      invariant !first ==> FreeFrom(m, e, 10, e0, q, Decimal(mant, p, k)) == Free(m, e, 10, e0, 17)
      decreases q
    {
      var raw, k1, ps;
      ok, raw, k1 := FewerDigits(m, e, e0, k0, d17, rem, gn, q, bm, bp);
      if !ok {
        return;
      }
      raw, ps := FreeLoop.DropZeros(raw, q, 10, k1);
      var cv := InLastUnits(raw, ps, k1, k0);
      if first {
        first := false;
      } else {
        VerdictSound(m, e, k0, Decimal(raw, ps, k1), cv, bm, bp, gn, Pow(2, gn));
        var v := RoundTrip(cv, bm, bp, Pow(2, gn));
        if v.Unknown? {
          VerdictDoubts(m, e, k0, cv, bm, bp, gn, Pow(2, gn));
          return false, mant, p, k;
        }
        if v.Outside? {
          break;
        }
      }
      mant, p, k := raw, ps, k1;
      if ps == 1 {
        break;
      }
      q := ps - 1;
    }
  }
}
