/** The binary16 conversions tofp16 and fromfp16 of src/cutils.h. */
module Half {
  import opened Powers
  import opened Rounding
  import opened Limbs
  import opened MpbModel
  import opened Doubles
  import opened Nearest
  import opened DoubleBits
  import opened RoundedScaling
  import opened Hardware

  const HALF_INF: nat := 0x7C00
  const HALF_NAN: nat := 0x7C01

  // ----- the numbers -----

  /** The exponent of the unit in the last place of a binary16 magnitude. */
  function UlpOf(v: nat): int {
    (if v < 1024 then 1 else v / 1024) - 25
  }

  /** The value of a magnitude; infinity counts as the number after the largest finite one. */
  ghost function HalfReal(v: nat): (x: real) {
    (if v < 1024 then v else 1024 + v % 1024) as real * Pw(2, UlpOf(v))
  }

  /** Neighbouring magnitudes are one unit apart, also where the exponent changes. */
  lemma Neighbour(v: nat)
    ensures HalfReal(v + 1) == HalfReal(v) + Pw(2, UlpOf(v))
  {
    hide Pw;
    var c := if v < 1024 then v else 1024 + v % 1024;
    if (v + 1) % 1024 == 0 && v >= 1024 {
      PwSucc(2, UlpOf(v));
      assert UlpOf(v + 1) == UlpOf(v) + 1;
      DoubleUnit(Pw(2, UlpOf(v)));
    } else {
      assert UlpOf(v + 1) == UlpOf(v);
      AddUnit(c, Pw(2, UlpOf(v)));
    }
  }

  lemma DoubleUnit(u: real)
    ensures 1024.0 * (2.0 * u) == 2047.0 * u + u
  {}

  lemma AddUnit(c: nat, u: real)
    ensures (c + 1) as real * u == c as real * u + u
  {}

  lemma {:induction false} HalfMono(v: nat, w: nat)
    requires v < w
    ensures HalfReal(v) < HalfReal(w)
    decreases w
  {
    hide HalfReal, Pw;
    Neighbour(w - 1);
    if v < w - 1 { HalfMono(v, w - 1); }
  }

  /** `v` is the magnitude nearest to `x`, ties to even. */
  ghost predicate NearestHalf(x: real, v: nat) {
    && v <= HALF_INF
    && (forall w: nat :: w <= HALF_INF && w != v ==>
          Abs(x - HalfReal(v)) < Abs(x - HalfReal(w)) || (Abs(x - HalfReal(v)) == Abs(x - HalfReal(w)) && v % 2 == 0))
  }

  /** Rounding the position between two neighbours rounds the number. */
  lemma NearestBetween(x: real, n: nat, rem: nat, den: nat, g: real)
    requires n < HALF_INF && 0 <= rem < den && g > 0.0 && n * den + rem >= 0
    requires x == HalfReal(n) + rem as real * g && Pw(2, UlpOf(n)) == den as real * g
    ensures NearestHalf(x, RoundQuot(NearestEven, n * den + rem, den))
  {
    hide HalfReal, Pw, Abs;
    DivModUnique(n * den + rem, den, n, rem);
    var v := RoundQuot(NearestEven, n * den + rem, den);
    Neighbour(n);
    var lo, hi := HalfReal(n), HalfReal(n + 1);
    forall w: nat | w <= HALF_INF && w != v
      ensures Abs(x - HalfReal(v)) < Abs(x - HalfReal(w))
           || (Abs(x - HalfReal(v)) == Abs(x - HalfReal(w)) && v % 2 == 0)
    {
      if w < n { HalfMono(w, n); }
      if w > n + 1 { HalfMono(n + 1, w); }
      Closer(x, lo, hi, HalfReal(w), rem, den, g, w as int - n as int);
    }
  }

  /** Distances to two neighbours and to anything beyond them. */
  lemma Closer(x: real, lo: real, hi: real, other: real, rem: nat, den: nat, g: real, side: int)
    requires g > 0.0 && 0 <= rem < den && x == lo + rem as real * g && hi == lo + den as real * g
    requires side < 0 ==> other < lo
    requires side == 0 ==> other == lo
    requires side == 1 ==> other == hi
    requires side > 1 ==> other > hi
    ensures 2 * rem < den && side != 0 ==> Abs(x - lo) < Abs(x - other)
    ensures 2 * rem > den && side != 1 ==> Abs(x - hi) < Abs(x - other)
    ensures 2 * rem == den && side != 0 && side != 1 ==> Abs(x - lo) < Abs(x - other) && Abs(x - hi) < Abs(x - other)
    ensures 2 * rem == den ==> Abs(x - lo) == Abs(x - hi)
  {
    hide Abs;
    var p, q := rem as real * g, (den - rem) as real * g;
    Parts(rem, den, g, p, q);
    Distances(x, lo, hi, other, p, q, side);
  }

  lemma Parts(rem: nat, den: nat, g: real, p: real, q: real)
    requires g > 0.0 && rem < den && p == rem as real * g && q == (den - rem) as real * g
    ensures p >= 0.0 && q > 0.0 && p + q == den as real * g
    ensures 2 * rem < den ==> p < q
    ensures 2 * rem > den ==> p > q
    ensures 2 * rem == den ==> p == q
  {
    var x, y := rem as real, (den - rem) as real;
    assert x + y == den as real;
    OrderedParts(x, y, g, p, q, den as real * g);
  }

  lemma OrderedParts(x: real, y: real, g: real, p: real, q: real, t: real)
    requires g > 0.0 && x >= 0.0 && y > 0.0 && p == x * g && q == y * g && t == (x + y) * g
    ensures p >= 0.0 && q > 0.0 && p + q == t
    ensures x < y ==> p < q
    ensures x > y ==> p > q
    ensures x == y ==> p == q
  {
    Spread(x, y, g);
    RMulMono(0.0, x, g);
    RMulStrict(0.0, y, g);
    if x < y { RMulStrict(x, y, g); }
    if x > y { RMulStrict(y, x, g); }
  }

  lemma Distances(x: real, lo: real, hi: real, other: real, p: real, q: real, side: int)
    requires p >= 0.0 && q > 0.0 && x == lo + p && hi == x + q
    requires side < 0 ==> other < lo
    requires side == 0 ==> other == lo
    requires side == 1 ==> other == hi
    requires side > 1 ==> other > hi
    ensures p < q && side != 0 ==> Abs(x - lo) < Abs(x - other)
    ensures p > q && side != 1 ==> Abs(x - hi) < Abs(x - other)
    ensures p == q && side != 0 && side != 1 ==> Abs(x - lo) < Abs(x - other) && Abs(x - hi) < Abs(x - other)
    ensures p == q ==> Abs(x - lo) == Abs(x - hi)
  {}

  lemma Spread(a: real, b: real, g: real)
    ensures a * g + b * g == (a + b) * g
  {}

  // ----- tofp16 -----

  /** tofp16 on the pattern of a double. */
  function ToHalf(a0: nat): (h: nat)
    requires a0 < BASE
  {
    var sgn, a := a0 / SIGN, a0 % SIGN;
    var v :=
      if a > INF then HALF_NAN
      else if a < 0x3F10_0000_0000_0000 then
        if a <= 0x3E60_0000_0000_0000 then 0
        else
          var shift := 1051 - a / TWO52;
          RoundShifted(TWO52 + a % TWO52, shift)
      else
        var r := RoundShifted(a - 0x3F00_0000_0000_0000, 42);
        if r > HALF_INF then HALF_INF else r;
    v + sgn * 0x8000
  }

  /** A shift right that rounds to nearest, ties to even, by one addition. */
  function RoundShifted(a: nat, shift: nat): (v: nat) {
    if shift == 0 then a
    else
      PowPositive(2, shift);
      (a + a / Pow(2, shift) % 2 + (Pow(2, shift - 1) - 1)) / Pow(2, shift)
  }

  lemma RoundShiftedIs(a: nat, shift: nat)
    requires shift >= 1
    ensures Pow(2, shift) > 0 && RoundShifted(a, shift) == RoundQuot(NearestEven, a, Pow(2, shift))
  {
    hide Pow;
    PowPositive(2, shift);
    PowUnfold(2, shift - 1);
    PowPositive(2, shift - 1);
    AddRounds(a, Pow(2, shift), Pow(2, shift - 1));
  }

  lemma AddRounds(a: nat, d: nat, h: nat)
    requires h >= 1 && d == 2 * h
    ensures (a + a / d % 2 + (h - 1)) / d == RoundQuot(NearestEven, a, d)
  {
    var q, r := a / d, a % d;
    var s := r + q % 2 + (h - 1);
    var qd := q * d;
    assert a == qd + r;
    assert a + q % 2 + (h - 1) == qd + s;
    if s < d {
      DivModUnique(qd + s, d, q, s);
    } else {
      assert (q + 1) * d == qd + d;
      DivModUnique(qd + s, d, q + 1, s - d);
    }
  }

  /** The value of a normal pattern. */
  lemma PatternValue(a0: nat, s: nat, f: nat, m: nat)
    requires s <= 1 && 1 <= f < 0x7FF && m < TWO52 && a0 == f * TWO52 + m + s * SIGN
    ensures a0 < BASE && a0 % SIGN == f * TWO52 + m && a0 / SIGN == s
    ensures Decode(a0) == Finite(s == 1, TWO52 + m, f - 1022)
    ensures Real(TWO52 + m, f - 1022) == (TWO52 + m) as real * Pw(2, f - 1075)
  {
    hide Pow, Pw, Decode, BitLen;
    DecodeFields(a0, s, f, m);
    DivModUnique(a0, SIGN, s, f * TWO52 + m);
  }

  /** The scaled integer splits into a magnitude and a remainder. */
  lemma ScaledParts(c: nat, den: nat, rem: nat, g: real, u: real)
    requires u == den as real * g
    ensures (c * den + rem) as real * g == c as real * u + rem as real * g
  {
    CastProduct(c, den, den as real);
    assert (c * den + rem) as real == (c * den) as real + rem as real;
    Spread((c * den) as real, rem as real, g);
    RMulAssoc(c as real, den as real, g);
  }

  lemma FortyTwo()
    ensures Pow(2, 42) == 0x400_0000_0000
  {
    SquareIsPow(2, 42);
    assert Square(2, 42) == 0x400_0000_0000;
  }

  /** The range of normal binary16 numbers and above it. */
  lemma NormalNearest(f: nat, m: nat, x: real)
    requires 1009 <= f < 0x7FF && m < TWO52 && x == (TWO52 + m) as real * Pw(2, f - 1075)
    ensures
      var r := RoundShifted((f - 1008) * TWO52 + m, 42);
      NearestHalf(x, if r > HALF_INF then HALF_INF else r)
  {
    hide Pow, Pw, HalfReal, NearestHalf, RoundShifted, RoundQuot;
    FortyTwo();
    var den, g, a := 0x400_0000_0000, Pw(2, f - 1075), (f - 1008) * TWO52 + m;
    var c, rem := m / den, m % den;
    var n := (f - 1008) * 1024 + c;
    assert a == n * den + rem && c < 1024;
    RoundShiftedIs(a, 42);
    RoundAtLeast(a, den, n, rem);
    assert UlpOf(n) == f - 1033 && n % 1024 == c;
    PwAdd(2, 42, f - 1075);
    PwNat(2, 42);
    assert 42 + (f - 1075) == f - 1033;
    if n < HALF_INF {
      assert TWO52 + m == (1024 + c) * den + rem;
      ScaledParts(1024 + c, den, rem, g, Pw(2, f - 1033));
      assert HalfReal(n) == (1024 + c) as real * Pw(2, f - 1033) by { HalfRealIs(n); }
      NearestBetween(x, n, rem, den, g);
    } else {
      AboveAll(f, m, x);
    }
  }

  lemma HalfRealIs(n: nat)
    requires n >= 1024
    ensures HalfReal(n) == (1024 + n % 1024) as real * Pw(2, UlpOf(n))
  {
    hide Pw;
  }

  lemma RoundAtLeast(a: nat, den: nat, n: nat, rem: nat)
    requires den > 0 && a == n * den + rem && rem < den
    ensures n <= RoundQuot(NearestEven, a, den) <= n + 1
  {
    DivModUnique(a, den, n, rem);
  }

  /** From 2^16 on everything is nearest to infinity. */
  lemma AboveAll(f: nat, m: nat, x: real)
    requires f >= 1039 && x == (TWO52 + m) as real * Pw(2, f - 1075)
    ensures NearestHalf(x, HALF_INF)
  {
    hide Pow, Pw, HalfReal;
    Two53();
    PwNat(2, 52);
    PwAdd(2, 52, f - 1075);
    PwMono(2, 16, 52 + (f - 1075));
    RMulMono(Pw(2, 52), (TWO52 + m) as real, Pw(2, f - 1075));
    TopValue();
    forall w: nat | w < HALF_INF ensures HalfReal(w) < HalfReal(HALF_INF) { HalfMono(w, HALF_INF); }
  }

  lemma TopValue()
    ensures HalfReal(HALF_INF) == Pw(2, 16)
  {
    hide Pw, Pow;
    PwNat(2, 10);
    SquareIsPow(2, 10);
    assert Square(2, 10) == 1024;
    PwAdd(2, 10, 6);
    HalfRealIs(HALF_INF);
    assert UlpOf(HALF_INF) == 6 && HALF_INF % 1024 == 0;
  }

  /** The range of subnormal binary16 numbers. */
  lemma SubnormalNearest(f: nat, m: nat, x: real)
    requires 998 <= f <= 1008 && m < TWO52 && x == (TWO52 + m) as real * Pw(2, f - 1075)
    ensures NearestHalf(x, RoundShifted(TWO52 + m, 1051 - f))
  {
    hide Pow, Pw, HalfReal, NearestHalf, RoundShifted, RoundQuot;
    var shift := 1051 - f;
    var den, g, a := Pow(2, shift), Pw(2, f - 1075), TWO52 + m;
    RoundShiftedIs(a, shift);
    var n, rem := a / den, a % den;
    assert a == n * den + rem;
    FortyTwo();
    PowMono(2, 43, shift);
    PowUnfold(2, 42);
    if n >= 1024 { MulMono(1024, n, 0x800_0000_0000, den); }
    PwAdd(2, shift, f - 1075);
    PwNat(2, shift);
    assert shift + (f - 1075) == -24;
    ScaledParts(n, den, rem, g, Pw(2, -24));
    assert HalfReal(n) == n as real * Pw(2, -24) && UlpOf(n) == -24 by { SmallHalf(n); }
    NearestBetween(x, n, rem, den, g);
  }

  lemma SmallHalf(n: nat)
    requires n < 1024
    ensures HalfReal(n) == n as real * Pw(2, -24) && UlpOf(n) == -24
  {
    hide Pw;
  }

  /** Up to half the smallest subnormal everything is nearest to zero. */
  lemma ZeroNearest(x: real)
    requires 0.0 <= x <= Pw(2, -25)
    ensures NearestHalf(x, 0)
  {
    hide Pw, HalfReal;
    PwSucc(2, -25);
    SmallHalf(0);
    SmallHalf(1);
    ZeroTimesReal(Pw(2, -24));
    assert HalfReal(0) == 0.0 && HalfReal(1) == Pw(2, -24);
    forall w: nat | 0 < w <= HALF_INF ensures HalfReal(w) >= HalfReal(1) { if w > 1 { HalfMono(1, w); } }
  }

  lemma ZeroTimesReal(u: real)
    ensures 0.0 * u == 0.0 && 1.0 * u == u
  {}

  /** tofp16 returns the nearest binary16, ties to even, with the sign of its argument. */
  lemma HalfNearest(a0: nat)
    requires a0 < BASE && Decode(a0).Finite?
    ensures
      var d := Decode(a0);
      var h := ToHalf(a0);
      NearestHalf(Real(d.m, d.e), h % 0x8000) && h / 0x8000 == a0 / SIGN && (d.m != 0 ==> d.neg == (a0 / SIGN == 1))
  {
    hide Pow, Pw, Decode, BitLen, NearestHalf, RoundShifted, Real, Canonical;
    var s, a := a0 / SIGN, a0 % SIGN;
    var f, m := a / TWO52, a % TWO52;
    FieldsOf(a0);
    if f >= 1 { PatternValue(a0, s, f, m); }
    if f >= 1009 {
      NormalNearest(f, m, Real(Decode(a0).m, Decode(a0).e));
    } else if f > 998 || (f == 998 && m > 0) {
      SubnormalNearest(f, m, Real(Decode(a0).m, Decode(a0).e));
    } else {
      TinyPattern(a0, s, f, m);
      ZeroNearest(Real(Decode(a0).m, Decode(a0).e));
    }
    SmallMagnitude(a0);
  }

  lemma FieldsOf(a0: nat)
    requires a0 < BASE && Decode(a0).Finite?
    ensures
      var s, a := a0 / SIGN, a0 % SIGN;
      var f, m := a / TWO52, a % TWO52;
      s <= 1 && f < 0x7FF && a == f * TWO52 + m && a0 == f * TWO52 + m + s * SIGN
  {
    hide Pow, BitLen;
  }

  lemma TinyPattern(a0: nat, s: nat, f: nat, m: nat)
    requires s <= 1 && m < TWO52 && a0 == f * TWO52 + m + s * SIGN && (f < 998 || (f == 998 && m == 0))
    ensures a0 < BASE && Decode(a0).Finite? && Real(Decode(a0).m, Decode(a0).e) <= Pw(2, -25)
    ensures Decode(a0).m != 0 ==> Decode(a0).neg == (s == 1)
  {
    hide Pow, Pw, BitLen, Decode, Canonical;
    DecodeFields(a0, s, f, m);
    EncodeDecode(a0);
    var d := Decode(a0);
    if d.m == 0 {
      ZeroReal(d.e);
    } else {
      CanonicalExp(d.m, d.e);
      if f < 998 {
        PwMono(2, d.e, -25);
      } else {
        Two53();
        PwNat(2, 52);
        PwAdd(2, 52, -77);
      }
    }
  }

  lemma SmallMagnitude(a0: nat)
    requires a0 < BASE && Decode(a0).Finite?
    ensures ToHalf(a0) / 0x8000 == a0 / SIGN
  {
    hide Pow, RoundShifted, Decode;
    var a := a0 % SIGN;
    FieldsOf(a0);
    var f, m := a / TWO52, a % TWO52;
    if 998 <= f <= 1008 { SubnormalSmall(m, 1051 - f); }
  }

  lemma SubnormalSmall(m: nat, shift: nat)
    requires m < TWO52 && 43 <= shift <= 53
    ensures RoundShifted(TWO52 + m, shift) <= 1025
  {
    hide Pow, RoundShifted, RoundQuot;
    RoundShiftedIs(TWO52 + m, shift);
    var den := Pow(2, shift);
    var n, rem := (TWO52 + m) / den, (TWO52 + m) % den;
    assert TWO52 + m == n * den + rem;
    RoundAtLeast(TWO52 + m, den, n, rem);
    FortyTwo();
    PowMono(2, 43, shift);
    PowUnfold(2, 42);
    if n >= 1024 { MulMono(1024, n, 0x800_0000_0000, den); }
  }

  /** Infinities and values that are not numbers. */
  lemma NotFiniteHalf(a0: nat)
    requires a0 < BASE && !Decode(a0).Finite?
    ensures ToHalf(a0) == (if a0 % TWO52 == 0 then HALF_INF else HALF_NAN) + a0 / SIGN * 0x8000
  {
    hide Pow, BitLen, Decode, RoundShifted;
    NotFiniteFields(a0);
    FortyTwo();
    var a := 1039 * TWO52;
    RoundShiftedIs(a, 42);
    RoundAtLeast(a, 0x400_0000_0000, 1039 * 1024, 0);
  }

  lemma NotFiniteFields(a0: nat)
    requires a0 < BASE && !Decode(a0).Finite?
    ensures a0 / SIGN <= 1 && a0 % SIGN == 0x7FF * TWO52 + a0 % TWO52
  {
    hide Pow, BitLen;
  }

  // ----- fromfp16 -----

  /** The pattern fromfp16 builds before it scales. */
  function Unscaled(h: nat): (a: nat)
    requires h < 0x10000
    ensures a < BASE
  {
    var v := h % 0x8000;
    (if v >= HALF_INF then v + 0x1F8000 else v) * 0x400_0000_0000 + h / 0x8000 * SIGN
  }

  /** 2^1008 as a double. */
  const SCALE: (nat, int) := (TWO52, 1009)

  /** fromfp16: the scaled pattern, multiplied by 2^1008. */
  function FromHalf(h: nat): (a: nat)
    requires h < 0x10000
  {
    match Decode(Unscaled(h))
    case NotFinite => Unscaled(h)
    case Finite(neg, m, e) => DoubleBits.Encode(neg, Product((m, e), SCALE))
  }

  lemma ScaleValue()
    ensures RealOf(SCALE) == Pw(2, 1008)
  {
    hide Pw, Pow;
    Two53();
    PwNat(2, 52);
    PwAdd(2, 52, 956);
  }

  /** The unscaled pattern has 2^-1008 times the value. */
  lemma UnscaledValue(h: nat)
    requires h < 0x10000 && h % 0x8000 < HALF_INF
    ensures
      var d := Decode(Unscaled(h));
      && d.Finite? && d.neg == (h / 0x8000 == 1)
      && Real(d.m, d.e) == HalfReal(h % 0x8000) * Pw(2, -1008)
  {
    hide Pw, Pow, BitLen, Decode, HalfReal, Real;
    var v, s := h % 0x8000, h / 0x8000;
    var f, c := v / 1024, v % 1024;
    var m := c * 0x400_0000_0000;
    assert Unscaled(h) == f * TWO52 + m + s * SIGN;
    DecodeFields(Unscaled(h), s, f, m);
    FortyTwo();
    if f > 0 {
      HalfRealIs(v);
      UnscaledNormal(f, c, m, HalfReal(v));
    } else {
      SmallHalf(v);
      UnscaledSmall(c, m, HalfReal(v));
    }
  }

  lemma UnscaledNormal(f: nat, c: nat, m: nat, x: real)
    requires 1 <= f && m == c * 0x400_0000_0000 && x == (1024 + c) as real * Pw(2, f - 25)
    ensures Real(TWO52 + m, f - 1022) == x * Pw(2, -1008)
  {
    hide Pw, Pow;
    FortyTwo();
    PwNat(2, 42);
    PwAdd(2, 42, f - 1075);
    PwAdd(2, f - 25, -1008);
    assert 42 + (f - 1075) == f - 25 + -1008;
    CastProduct(1024 + c, 0x400_0000_0000, Pw(2, 42));
    Slide((1024 + c) as real, Pw(2, 42), Pw(2, f - 1075), Pw(2, f - 25), Pw(2, -1008), x);
  }

  lemma Slide(c: real, a: real, b: real, p: real, q: real, x: real)
    requires a * b == p * q && x == c * p
    ensures (c * a) * b == x * q
  {
    RMulAssoc(c, a, b);
    RMulAssoc(c, p, q);
  }

  lemma UnscaledSmall(c: nat, m: nat, x: real)
    requires c < 1024 && m == c * 0x400_0000_0000 && x == c as real * Pw(2, -24)
    ensures
      var l := 53 - BitLen(m);
      m == 0 || (BitLen(m) <= 52 && Real(m * Pow(2, l), -1021 - l) == x * Pw(2, -1008))
    ensures m == 0 ==> Real(0, 0) == x * Pw(2, -1008)
  {
    hide Pw, Pow, BitLen;
    if m == 0 {
      ZeroTimesReal(Pw(2, -24));
      ZeroTimesReal(Pw(2, -1008));
      ZeroReal(0);
    } else {
      Subnormal(m);
      var l := 53 - BitLen(m);
      SubnormalValue(m, l);
      FortyTwo();
      PwNat(2, 42);
      PwAdd(2, 42, -1074);
      PwAdd(2, -24, -1008);
      CastProduct(c, 0x400_0000_0000, Pw(2, 42));
      Slide(c as real, Pw(2, 42), Pw(2, -1074), Pw(2, -24), Pw(2, -1008), x);
    }
  }

  lemma SubnormalValue(m: nat, l: nat)
    ensures Real(m * Pow(2, l), -1021 - l) == m as real * Pw(2, -1074)
  {
    hide Pw, Pow;
    PwNat(2, l);
    PwAdd(2, l, -1074 - l);
    assert l + (-1074 - l) == -1074;
    CastProduct(m, Pow(2, l), Pw(2, l));
    RMulAssoc(m as real, Pw(2, l), Pw(2, -1074 - l));
  }

  /** fromfp16 is exact. */
  lemma FromHalfExact(h: nat)
    requires h < 0x10000 && h % 0x8000 < HALF_INF
    ensures FromHalf(h) < BASE
    ensures
      var d := Decode(FromHalf(h));
      d.Finite? && d.neg == (h / 0x8000 == 1) && Real(d.m, d.e) == HalfReal(h % 0x8000)
  {
    hide Pw, Pow, BitLen, Decode, HalfReal, Real, Encode, Product, Canonical, ToDouble;
    UnscaledValue(h);
    ScaleValue();
    var u, v := Decode(Unscaled(h)), h % 0x8000;
    var x := HalfReal(v);
    PwAdd(2, -1008, 1008);
    RMulAssoc(x, Pw(2, -1008), Pw(2, 1008));
    TimesOne(x, Pw(2, 0));
    ProductRounds((u.m, u.e), SCALE, x);
    var d := Product((u.m, u.e), SCALE);
    HalfDyadic(v);
    if v == 0 {
      ZeroToDoubleReal(x);
      ZeroReal(0);
      DecodeEncode(u.neg, 0, 0);
    } else {
      HalfMono(0, v);
      HalfMono(v, HALF_INF);
      DyadicExact(x, if v < 1024 then v else 1024 + v % 1024, UlpOf(v));
      TopValue();
      SmallExponent(d.0, d.1);
      DecodeEncode(u.neg, d.0, d.1);
    }
  }

  lemma HalfDyadic(v: nat)
    ensures HalfReal(v) == (if v < 1024 then v else 1024 + v % 1024) as real * Pw(2, UlpOf(v))
    ensures HalfReal(0) == 0.0
  {
    hide Pw;
    ZeroTimesReal(Pw(2, UlpOf(0)));
  }

  lemma ZeroToDoubleReal(x: real)
    requires x == 0.0
    ensures ToDouble(NearestEven, x) == (0, 0)
  {}

  lemma SmallExponent(m: nat, e: int)
    requires Canonical(m, e) && Real(m, e) < Pw(2, 16)
    ensures e <= 1024
  {
    hide Pw, Real, Canonical;
    CanonicalExp(m, e);
    if e > 1024 { PwMono(2, 16, e - 1); }
  }

  /** tofp16 undoes fromfp16 for every binary16 that is a number, infinities included. */
  lemma HalfRoundTrip(h: nat)
    requires h < 0x10000 && h % 0x8000 <= HALF_INF
    ensures FromHalf(h) < BASE && ToHalf(FromHalf(h)) == h
  {
    hide Pw, Pow, BitLen, Decode, HalfReal, Real, Encode, Product, ToHalf, FromHalf;
    var v, s := h % 0x8000, h / 0x8000;
    if v == HALF_INF {
      InfiniteRoundTrip(h);
    } else {
      FromHalfExact(h);
      var a := FromHalf(h);
      HalfNearest(a);
      SignOf(a);
      var w := ToHalf(a) % 0x8000;
      if w < v { HalfMono(w, v); }
      if v < w { HalfMono(v, w); }
      assert w == v;
    }
  }

  lemma SignOf(a: nat)
    requires a < BASE && Decode(a).Finite?
    ensures Decode(a).neg == (a / SIGN == 1) && a / SIGN <= 1
  {
    hide Pow, BitLen;
  }

  lemma InfiniteRoundTrip(h: nat)
    requires h < 0x10000 && h % 0x8000 == HALF_INF
    ensures FromHalf(h) < BASE && ToHalf(FromHalf(h)) == h
  {
    hide Pow, BitLen, ToHalf;
    var a, s := Unscaled(h), h / 0x8000;
    assert a == INF + s * SIGN;
    assert Decode(a).NotFinite?;
    NotFiniteHalf(a);
  }
}
