/** Rounding a non-negative real or a quotient to an integer, and what a sticky low bit preserves. */
module Rounding {
  import opened Powers

  /** JS_RNDN, JS_RNDNA and JS_RNDZ. */
  datatype Mode = NearestEven | NearestAway | TowardZero

  /** The integer a real rounds to. */
  ghost function Round(mode: Mode, y: real): (n: int)
    requires y >= 0.0
    ensures n >= 0
  {
    var k := y.Floor;
    var rest := y - k as real;
    if mode.TowardZero? || rest < 0.5 then k
    else if rest > 0.5 || mode.NearestAway? then k + 1
    else k + k % 2
  }

  /** `n` is the integer nearest to `y`, the even one when `y` lies halfway. */
  ghost predicate IsNearestEven(y: real, n: int) {
    && -0.5 <= y - n as real <= 0.5
    && (y - n as real == 0.5 || y - n as real == -0.5 ==> n % 2 == 0)
  }

  lemma NearestEvenUnique(y: real, n: int)
    requires y >= 0.0
    ensures Round(NearestEven, y) == n <==> IsNearestEven(y, n)
  {
    var k := y.Floor;
    if IsNearestEven(y, n) {
      assert n == k || n == k + 1;
    }
  }

  lemma RoundMono(mode: Mode, x: real, y: real)
    requires 0.0 <= x <= y
    ensures Round(mode, x) <= Round(mode, y)
  {
    if x.Floor < y.Floor {
      assert Round(mode, x) <= x.Floor + 1 <= y.Floor <= Round(mode, y);
    }
  }

  lemma RoundInt(mode: Mode, n: nat)
    ensures Round(mode, n as real) == n
  {}

  /** A nearest integer is at least as close as any other integer. */
  lemma NearestIsClosest(y: real, n: int)
    requires y >= 0.0
    ensures Abs(y - Round(NearestEven, y) as real) <= Abs(y - n as real)
  {
    hide Round;
    var k := Round(NearestEven, y);
    NearestEvenUnique(y, k);
    if n != k { assert n <= k - 1 || n >= k + 1; }
  }

  ghost function Abs(x: real): real {
    if x < 0.0 then -x else x
  }

  // ----- quotients -----

  /** `n / d` rounded to an integer. */
  function RoundQuot(mode: Mode, n: nat, d: nat): (q: nat)
    requires d > 0
  {
    if mode.TowardZero? || 2 * (n % d) < d then n / d
    else if 2 * (n % d) > d || mode.NearestAway? then n / d + 1
    else n / d + n / d % 2
  }

  lemma DivModUnique(n: int, d: int, q: int, r: int)
    requires d > 0 && n == q * d + r && 0 <= r < d
    ensures n / d == q && n % d == r
  {
    var q', r' := n / d, n % d;
    assert n == q' * d + r' && 0 <= r' < d;
    var k := q - q';
    assert k * d == r' - r;
    if k >= 1 {
      MulMono(1, k, d, d);
    } else if k <= -1 {
      MulMono(1, -k, d, d);
    }
  }

  lemma RoundQuotReal(mode: Mode, n: nat, d: nat)
    requires d > 0
    ensures n as real / d as real >= 0.0
    ensures Round(mode, n as real / d as real) == RoundQuot(mode, n, d)
  {
    var y := n as real / d as real;
    var q, r := n / d, n % d;
    assert n == q * d + r;
    QuotientParts(n as real, d as real, q as real, r as real, y);
    assert y.Floor == q;
  }

  lemma QuotientParts(n: real, d: real, q: real, r: real, y: real)
    requires d > 0.0 && 0.0 <= r < d && 0.0 <= q && n == q * d + r && y == n / d
    ensures y >= 0.0 && q <= y < q + 1.0
    ensures y - q < 0.5 <==> 2.0 * r < d
    ensures y - q > 0.5 <==> 2.0 * r > d
  {
    var t := r / d;
    assert y == q + t;
    UnitQuotient(r, d);
    HalfQuotient(r, d);
  }

  lemma UnitQuotient(r: real, d: real)
    requires 0.0 <= r < d
    ensures 0.0 <= r / d < 1.0
  {}

  lemma HalfQuotient(r: real, d: real)
    requires d > 0.0
    ensures r / d < 0.5 <==> 2.0 * r < d
    ensures r / d > 0.5 <==> 2.0 * r > d
  {}

  /** The quotient with the low bit set when the division was not exact. */
  function Sticky(n: nat, d: nat): (v: nat)
    requires d > 0
  {
    if n % d == 0 then n / d else n / d + 1 - n / d % 2
  }

  /** Dividing twice is dividing by the product. */
  lemma DivTwice(n: nat, d: nat, m: nat)
    requires d > 0 && m > 0
    ensures d * m > 0
    ensures n / (d * m) == n / d / m
    ensures n % (d * m) == (n / d) % m * d + n % d
  {
    var q, r := n / d, n % d;
    var qq, rq := q / m, q % m;
    MulMono(1, d, 1, m);
    assert n == qq * (d * m) + (rq * d + r) by {
      Regroup(n, d, m, q, r, qq, rq);
    }
    assert rq * d + d <= d * m by {
      MulMono(rq + 1, m, d, d);
      assert (rq + 1) * d == rq * d + d;
    }
    MulMono(0, rq, 0, d);
    DivModUnique(n, d * m, qq, rq * d + r);
  }

  lemma Regroup(n: int, d: int, m: int, q: int, r: int, qq: int, rq: int)
    requires n == q * d + r && q == qq * m + rq
    ensures n == qq * (d * m) + (rq * d + r)
  {
    assert (qq * m + rq) * d == qq * (d * m) + rq * d;
  }

  /**
    * Rounding away at least two bits of a sticky quotient gives what rounding the exact quotient gives.
    */
  lemma StickySound(mode: Mode, n: nat, d: nat, m: nat)
    requires d > 0 && m > 0 && m % 4 == 0
    ensures d * m > 0
    ensures RoundQuot(mode, Sticky(n, d), m) == RoundQuot(mode, n, d * m)
  {
    var q, r := n / d, n % d;
    var v := Sticky(n, d);
    var qq, rq := q / m, q % m;
    DivTwice(n, d, m);
    EvenParts(q, qq, rq, m);
    if r == 0 {
      StickyExact(rq, d, m);
    } else {
      var rv := rq + 1 - rq % 2;
      DivModUnique(v, m, qq, rv);
      HalfCompare(rq, rv, r, d, m);
    }
  }

  lemma EvenParts(q: int, qq: int, rq: int, m: int)
    requires m % 4 == 0 && q == qq * m + rq
    ensures q % 2 == rq % 2
  {
    var z := EvenProduct(qq, m);
    SameParity(q, z, rq);
  }

  lemma EvenProduct(a: int, m: int) returns (z: int)
    requires m % 4 == 0
    ensures a * m == 2 * z
  {
    var h := 2 * (m / 4);
    assert m == 2 * h;
    TwiceProduct(a, h, m);
    z := a * h;
  }

  lemma SameParity(q: int, z: int, rq: int)
    requires q == 2 * z + rq
    ensures q % 2 == rq % 2
  {}

  lemma TwiceProduct(a: int, h: int, m: int)
    requires m == 2 * h
    ensures a * m == 2 * (a * h)
  {}

  lemma HalfCompare(rq: nat, rv: nat, r: nat, d: nat, m: nat)
    requires 0 < r < d && m % 4 == 0 && rq < m
    requires rv == rq + 1 - rq % 2
    ensures 2 * rv < m ==> 2 * (rq * d + r) < d * m
    ensures 2 * rv > m ==> 2 * (rq * d + r) > d * m
    ensures 2 * rv != m
  {
    var h := m / 2;
    StickyHalf(rq, rq / 2, rq % 2, rv, m, m / 4, h);
    HalfProduct(rq, r, d, m, h);
  }

  lemma StickyHalf(rq: nat, k: nat, b: nat, rv: nat, m: nat, q: nat, h: nat)
    requires m == 4 * q && h == 2 * q && rq == 2 * k + b && b <= 1 && rv == rq + 1 - b
    ensures 2 * rv != m && (2 * rv < m ==> rq + 1 <= h) && (2 * rv > m ==> rq >= h)
  {}

  lemma HalfProduct(rq: nat, r: nat, d: nat, m: nat, h: nat)
    requires 0 < r < d && m == 2 * h
    ensures rq + 1 <= h ==> 2 * (rq * d + r) < d * m
    ensures rq >= h ==> 2 * (rq * d + r) > d * m
  {
    TwiceProduct(d, h, m);
    var a, b := rq * d, d * h;
    if rq + 1 <= h {
      MulMono(rq + 1, h, d, d);
      OneMoreTimes(rq, d, a);
    } else {
      MulMono(h, rq, d, d);
    }
    assert h * d == b;
  }

  lemma OneMoreTimes(q: int, d: int, p: int)
    requires p == q * d
    ensures (q + 1) * d == p + d
  {}

  lemma StickyExact(a: nat, d: nat, m: nat)
    requires d > 0
    ensures 2 * a < m <==> 2 * (a * d) < d * m
    ensures 2 * a > m <==> 2 * (a * d) > d * m
  {
    assert 2 * (a * d) == (2 * a) * d;
    assert d * m == m * d;
    if 2 * a < m { StrictMul(2 * a, m, d); }
    if 2 * a > m { StrictMul(m, 2 * a, d); }
  }

  lemma StrictMul(a: int, b: int, d: int)
    requires a < b && d > 0
    ensures a * d < b * d
  {}
}
