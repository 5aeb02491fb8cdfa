/**
  * IEEE 754 conversion, multiplication and division of the fast paths of src/dtoa.c: the exact result, rounded
  * once to nearest, ties to even (sections 4.3.1 and 5.4.1 of IEEE 754-2019).
  */
module Hardware {
  import opened Powers
  import opened Rounding
  import opened MpbModel
  import opened Doubles
  import opened Nearest
  import opened RoundedScaling
  import opened StickyRounding

  ghost function RealOf(x: (nat, int)): (v: real)
    ensures v >= 0.0
  {
    Real(x.0, x.1)
  }

  /** The double nearest an integer: a conversion, or a literal such as 1e22. */
  function OfInt(n: nat): (d: (nat, int)) {
    BitsToDouble(NearestEven, n, 0)
  }

  function Product(x: (nat, int), y: (nat, int)): (d: (nat, int)) {
    BitsToDouble(NearestEven, x.0 * y.0, 106 - x.1 - y.1)
  }

  function Quotient(x: (nat, int), y: (nat, int)): (d: (nat, int))
    requires y.0 > 0
  {
    var k := 55 + BitLen(y.0);
    BitsToDouble(NearestEven, Sticky(x.0 * Pow(2, k), y.0), k - x.1 + y.1)
  }

  lemma ProductRounds(x: (nat, int), y: (nat, int), xy: real)
    requires xy == RealOf(x) * RealOf(y)
    ensures xy >= 0.0 && Product(x, y) == ToDouble(NearestEven, xy)
  {
    hide Pw, ToDouble, BitsToDouble, Times;
    var j, k, n, off := x.1 - 53, y.1 - 53, x.0 * y.0, 106 - x.1 - y.1;
    BitsToDoubleExact(NearestEven, n, off);
    PwAdd(2, j, k);
    assert j + k == -off;
    ProductValue(x.0, y.0, Pw(2, j), Pw(2, k), Pw(2, -off), RealOf(x), RealOf(y), xy);
    TimesIs(n, -off, xy);
  }

  lemma TimesIs(n: nat, k: int, x: real)
    requires x == n as real * Pw(2, k)
    ensures Times(n, k) == x
  {}

  lemma ProductValue(a: nat, b: nat, p: real, q: real, pq: real, ra: real, rb: real, xy: real)
    requires ra == a as real * p && rb == b as real * q && pq == p * q && xy == ra * rb
    ensures xy == (a * b) as real * pq
  {
    assert (a * b) as real == a as real * b as real;
    Regroup(a as real, p, b as real, q);
  }

  lemma Regroup(a: real, p: real, b: real, q: real)
    ensures (a * p) * (b * q) == (a * b) * (p * q)
  {
    assert (a * p) * (b * q) == a * p * b * q;
    assert (a * b) * (p * q) == a * b * p * q;
  }

  lemma QuotientRounds(x: (nat, int), y: (nat, int), q: real)
    requires y.0 > 0 && RealOf(y) > 0.0 && q == RealOf(x) / RealOf(y)
    ensures q >= 0.0 && Quotient(x, y) == ToDouble(NearestEven, q)
  {
    hide Pw, Pow, ToDouble, BitsToDouble, BitLen, Sticky;
    var b := BitLen(y.0);
    var k := 55 + b;
    var n, off := x.0 * Pow(2, k), k - x.1 + y.1;
    var v := Sticky(n, y.0);
    QuotientValue(x, y, k, q);
    if x.0 == 0 {
      StickyZero(y.0);
      ZeroToD(NearestEven, off);
      assert RealOf(x) == 0.0;
    } else {
      PowAdd(2, 55, b);
      PowPositive(2, 55);
      PowPositive(2, k);
      MulMono(Pow(2, 55), Pow(2, 55), y.0, Pow(2, b));
      MulMono(1, x.0, Pow(2, k), Pow(2, k));
      StickyAtLeast(n, y.0, Pow(2, 55));
      StickyAnyOffset(NearestEven, n, y.0, off, n as real / y.0 as real, q);
    }
  }

  lemma StickyAtLeast(n: nat, d: nat, t: nat)
    requires d > 0 && n >= t * d
    ensures Sticky(n, d) >= t
  {
    var q := n / d;
    assert n == q * d + n % d;
    assert (q + 1) * d == q * d + d;
    if q < t { MulMono(q + 1, t, d, d); }
  }

  lemma QuotientValue(x: (nat, int), y: (nat, int), k: nat, q: real)
    requires y.0 > 0 && RealOf(y) > 0.0 && q == RealOf(x) / RealOf(y)
    ensures q == ((x.0 * Pow(2, k)) as real / y.0 as real) * Pw(2, -(k - x.1 + y.1))
  {
    hide Pw, Pow;
    var i, j, t := x.1 - 53, y.1 - 53, -(k - x.1 + y.1);
    PwNat(2, k);
    PwAdd(2, k, t);
    PwAdd(2, k + t, j);
    assert k + t + j == i;
    CastProduct(x.0, Pow(2, k), Pw(2, k));
    QuotientParts(x.0 as real, y.0 as real, Pw(2, k), Pw(2, t), Pw(2, j), Pw(2, k + t), Pw(2, i), q,
                  (x.0 * Pow(2, k)) as real / y.0 as real, RealOf(x), RealOf(y));
  }

  lemma QuotientParts(a: real, b: real, pk: real, pt: real, pj: real, pkt: real, pi: real, q: real, y: real,
                      ra: real, rb: real)
    requires b > 0.0 && rb > 0.0 && pkt == pk * pt && pi == pkt * pj && ra == a * pi && rb == b * pj
    requires q == ra / rb && y == (a * pk) / b
    ensures q == y * pt
  {
    Reciprocal(b, y, a * pk);
    var z := y * pt;
    assert z * rb == ra by {
      Regroup(y, pt, b, pj);
      RMulAssoc(a, pk, pt * pj);
      RMulAssoc(pk, pt, pj);
    }
    DivideBack(z, rb, ra);
  }

  // ----- exact operands -----

  /** An integer of at most 53 significant bits is a double. */
  lemma OfIntExact(n: nat, j: nat, t: nat)
    requires 0 < j < TWO53 && n == j * Pow(2, t)
    ensures OfInt(n).0 > 0 && RealOf(OfInt(n)) == n as real
  {
    hide Pw, Pow, BitsToDouble, Real, ToDouble, Exp2, Units, Round;
    BitsToDoubleExact(NearestEven, n, 0);
    PowPositive(2, t);
    MulMono(1, j, 1, Pow(2, t));
    var x := n as real;
    assert Times(n, 0) == x by { TimesOne(n as real, Pw(2, 0)); }
    SignificantUnits(n, j, t);
    ToDoubleReal(NearestEven, x);
    if OfInt(n).0 == 0 { ZeroReal(OfInt(n).1); }
  }

  lemma SignificantUnits(n: nat, j: nat, t: nat)
    requires 0 < j < TWO53 && n == j * Pow(2, t) && n > 0
    ensures Units(NearestEven, n as real) as real * Pw(2, UlpExp(Exp2(n as real))) == n as real
  {
    hide Pw, Pow, Exp2, Units;
    PwNat(2, t);
    CastProduct(j, Pow(2, t), Pw(2, t));
    DyadicUnits(n as real, j, t);
  }

  /** A number of at most 53 significant bits, not below the smallest subnormal, is a whole number of its units. */
  lemma DyadicUnits(x: real, j: nat, t: int)
    requires 0 < j < TWO53 && t >= -1074 && x == j as real * Pw(2, t) && x > 0.0
    ensures Units(NearestEven, x) as real * Pw(2, UlpExp(Exp2(x))) == x
  {
    hide Pw, Pow, Exp2, Round;
    var k := Exp2(x);
    var u := UlpExp(k);
    DyadicExp(x, j, t, k);
    PwNat(2, t - u);
    PwAdd(2, t - u, u);
    PwAdd(2, u, -u);
    assert t - u + u == t && u + -u == 0;
    var w := j * Pow(2, t - u);
    assert x == w as real * Pw(2, u) by {
      CastProduct(j, Pow(2, t - u), Pw(2, t - u));
      RMulAssoc(j as real, Pw(2, t - u), Pw(2, u));
    }
    RMulAssoc(w as real, Pw(2, u), Pw(2, -u));
    TimesOne(w as real, Pw(2, 0));
    RoundInt(NearestEven, w);
    UnitsIs(NearestEven, x, k, w as real);
  }

  lemma DyadicExp(x: real, j: nat, t: int, k: int)
    requires 0 < j < TWO53 && t >= -1074 && x == j as real * Pw(2, t) && IsExp2(x, k)
    ensures UlpExp(k) <= t
  {
    hide Pw, Pow;
    Two53();
    PwNat(2, 53);
    PwAdd(2, 53, t);
    BelowScaled(x, j as real, Pw(2, 53), Pw(2, t), Pw(2, 53 + t));
    if k > 53 + t { PwMono(2, 53 + t, k - 1); }
  }

  lemma BelowScaled(x: real, j: real, a: real, w: real, aw: real)
    requires x == j * w && j < a && w > 0.0 && aw == a * w
    ensures x < aw
  {
    RMulStrict(j, a, w);
  }

  /** Such a number rounds to a double of the same value. */
  lemma DyadicExact(x: real, j: nat, t: int)
    requires 0 < j < TWO53 && t >= -1074 && x == j as real * Pw(2, t) && x > 0.0
    ensures
      var d := ToDouble(NearestEven, x);
      d.0 > 0 && RealOf(d) == x && Canonical(d.0, d.1)
  {
    hide Pw, Pow, Real, ToDouble, Exp2, Units, Canonical;
    DyadicUnits(x, j, t);
    ToDoubleReal(NearestEven, x);
    ToDoubleCanonical(NearestEven, x);
    if ToDouble(NearestEven, x).0 == 0 { ZeroReal(ToDouble(NearestEven, x).1); }
  }
}
