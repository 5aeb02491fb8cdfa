/** Powers with natural and with integer exponents, and the facts about them the number conversions use. */
module Powers {

  /** `b` raised to a natural exponent. */
  function Pow(b: nat, k: nat): nat
    decreases k
  {
    if k == 0 then 1 else b * Pow(b, k - 1)
  }

  lemma PowUnfold(b: nat, k: nat)
    ensures Pow(b, 0) == 1
    ensures Pow(b, k + 1) == b * Pow(b, k)
  {}

  lemma {:induction false} PowPositive(b: nat, k: nat)
    requires b >= 1
    ensures Pow(b, k) >= 1
    decreases k
  {
    if k > 0 {
      PowPositive(b, k - 1);
      MulMono(1, b, 1, Pow(b, k - 1));
    }
  }

  lemma {:induction false} PowAdd(b: nat, j: nat, k: nat)
    ensures Pow(b, j + k) == Pow(b, j) * Pow(b, k)
    decreases j
  {
    if j > 0 {
      PowAdd(b, j - 1, k);
      MulAssoc(b, Pow(b, j - 1), Pow(b, k));
    }
  }

  lemma {:induction false} PowMono(b: nat, j: nat, k: nat)
    requires b >= 1 && j <= k
    ensures Pow(b, j) <= Pow(b, k)
  {
    PowAdd(b, j, k - j);
    PowPositive(b, j);
    PowPositive(b, k - j);
    MulMono(Pow(b, j), Pow(b, j), 1, Pow(b, k - j));
  }

  lemma {:induction false} PowMulBase(a: nat, b: nat, k: nat)
    ensures Pow(a * b, k) == Pow(a, k) * Pow(b, k)
    decreases k
  {
    if k > 0 {
      PowMulBase(a, b, k - 1);
      MulRearrange(a, b, Pow(a, k - 1), Pow(b, k - 1));
    }
  }

  lemma {:induction false} PowPow(b: nat, j: nat, k: nat)
    ensures Pow(Pow(b, j), k) == Pow(b, j * k)
    decreases k
  {
    if k == 0 {
      assert j * k == 0;
    } else {
      PowPow(b, j, k - 1);
      PowAdd(b, j, j * (k - 1));
      assert j + j * (k - 1) == j * k;
    }
  }

  /** The same power by repeated squaring; cheap to evaluate on literals. */
  function Square(b: nat, k: nat): nat
    decreases k
  {
    if k == 0 then 1
    else if k % 2 == 0 then Square(b * b, k / 2)
    else b * Square(b * b, k / 2)
  }

  lemma {:induction false} SquareIsPow(b: nat, k: nat)
    ensures Square(b, k) == Pow(b, k)
    decreases k
  {
    if k > 0 {
      SquareIsPow(b * b, k / 2);
      PowMulBase(b, b, k / 2);
      PowAdd(b, k / 2, k / 2);
      if k % 2 == 1 {
        assert k == (k / 2 + k / 2) + 1;
      }
    }
  }

  lemma TenPowers()
    ensures Pow(10, 16) == 10000000000000000 && Pow(10, 17) == 100000000000000000
    ensures Pow(10, 18) == 1000000000000000000
  {
    SquareIsPow(10, 16);
    SquareIsPow(10, 17);
    SquareIsPow(10, 18);
    assert Square(10, 16) == 10000000000000000 && Square(10, 17) == 100000000000000000;
    assert Square(10, 18) == 1000000000000000000;
  }

  // ----- small facts about products -----

  lemma MulMono(a: int, b: int, c: int, d: int)
    requires 0 <= a <= b && 0 <= c <= d
    ensures 0 <= a * c <= b * d
  {
    assert b * d - a * c == b * (d - c) + (b - a) * c;
    MulNonNegative(b, d - c);
    MulNonNegative(b - a, c);
    MulNonNegative(a, c);
  }

  lemma MulNonNegative(a: int, b: int)
    requires 0 <= a && 0 <= b
    ensures 0 <= a * b
  {}

  lemma MulAssoc(a: int, b: int, c: int)
    ensures a * (b * c) == (a * b) * c
  {}

  lemma MulRearrange(a: int, b: int, c: int, d: int)
    ensures (a * b) * (c * d) == (a * c) * (b * d)
  {
    calc {
      (a * b) * (c * d);
      a * (b * (c * d));
      { MulAssoc(b, c, d); assert b * c == c * b; MulAssoc(c, b, d); }
      a * (c * (b * d));
      (a * c) * (b * d);
    }
  }

  // ----- integer exponents -----

  /** `b` raised to any integer exponent, as a real number. */
  ghost function Pw(b: nat, k: int): (r: real)
    requires b >= 1
    ensures r > 0.0
    ensures k == 0 ==> r == 1.0
    decreases if k >= 0 then k else -k
  {
    if k == 0 then 1.0
    else if k > 0 then b as real * Pw(b, k - 1)
    else Pw(b, k + 1) / b as real
  }

  lemma {:induction false} PwNat(b: nat, k: nat)
    requires b >= 1
    ensures Pw(b, k) == Pow(b, k) as real
    decreases k
  {
    if k > 0 { PwNat(b, k - 1); }
  }

  lemma PwSucc(b: nat, k: int)
    requires b >= 1
    ensures Pw(b, k + 1) == b as real * Pw(b, k)
  {}

  lemma {:induction false} PwAdd(b: nat, j: int, k: int)
    requires b >= 1
    ensures Pw(b, j + k) == Pw(b, j) * Pw(b, k)
    decreases if j >= 0 then j else -j
  {
    hide Pw;
    if j > 0 {
      PwAdd(b, j - 1, k);
      assert (j - 1) + k == (j + k) - 1;
      PwSucc(b, j - 1);
      PwSucc(b, j + k - 1);
      StepUp(b as real, Pw(b, j - 1), Pw(b, k), Pw(b, j + k - 1), Pw(b, j), Pw(b, j + k));
    } else if j < 0 {
      PwAdd(b, j + 1, k);
      assert (j + 1) + k == (j + k) + 1;
      PwSucc(b, j);
      PwSucc(b, j + k);
      StepDown(b as real, Pw(b, j), Pw(b, k), Pw(b, j + k), Pw(b, j + 1), Pw(b, j + k + 1));
    }
  }

  lemma StepUp(b: real, p: real, q: real, pq: real, p': real, pq': real)
    requires pq == p * q && p' == b * p && pq' == b * pq
    ensures pq' == p' * q
  {}

  lemma StepDown(b: real, p: real, q: real, pq: real, p': real, pq': real)
    requires b > 0.0 && pq' == p' * q && p' == b * p && pq' == b * pq
    ensures pq == p * q
  {
    assert b * pq == b * (p * q);
  }

  lemma RMulAssoc(x: real, y: real, z: real)
    ensures (x * y) * z == x * (y * z)
  {}

  lemma RCancel(x: real, y: real, z: real)
    requires x > 0.0 && x * y == x * z
    ensures y == z
  {}

  lemma RMulMono(x: real, y: real, z: real)
    requires x <= y && 0.0 <= z
    ensures x * z <= y * z
  {}

  lemma RMulStrict(x: real, y: real, z: real)
    requires x < y && 0.0 < z
    ensures x * z < y * z
  {}

  lemma PwMono(b: nat, j: int, k: int)
    requires b >= 1 && j <= k
    ensures Pw(b, j) <= Pw(b, k)
  {
    hide Pw;
    PwAdd(b, k - j, j);
    PowPositive(b, k - j);
    PwNat(b, k - j);
    ScaleUp(Pw(b, k - j), Pw(b, j), Pw(b, k));
  }

  lemma ScaleUp(x: real, y: real, z: real)
    requires x >= 1.0 && y >= 0.0 && z == x * y
    ensures y <= z
  {}

  lemma GrowUp(x: real, y: real, z: real)
    requires x > 1.0 && y > 0.0 && z == x * y
    ensures y < z
  {}

  lemma PwStrict(b: nat, j: int, k: int)
    requires b >= 2 && j < k
    ensures Pw(b, j) < Pw(b, k)
  {
    hide Pw;
    PwSucc(b, j);
    PwMono(b, j + 1, k);
    GrowUp(b as real, Pw(b, j), Pw(b, j + 1));
  }

  /** Comparing powers of one base compares the exponents. */
  lemma PwReflects(b: nat, j: int, k: int)
    requires b >= 2 && Pw(b, j) < Pw(b, k)
    ensures j < k
  {
    if k <= j { PwMono(b, k, j); }
  }

  lemma {:induction false} PwMulBase(a: nat, b: nat, k: int)
    requires a >= 1 && b >= 1
    ensures a * b >= 1
    ensures Pw(a * b, k) == Pw(a, k) * Pw(b, k)
    decreases if k >= 0 then k else -k
  {
    hide Pw;
    MulMono(1, a, 1, b);
    var c := (a * b) as real;
    assert c == a as real * b as real;
    if k > 0 {
      PwMulBase(a, b, k - 1);
      PwSucc(a * b, k - 1);
      PwSucc(a, k - 1);
      PwSucc(b, k - 1);
      ProductUp(a as real, b as real, c, Pw(a, k - 1), Pw(b, k - 1), Pw(a * b, k - 1));
    } else if k < 0 {
      PwMulBase(a, b, k + 1);
      PwSucc(a * b, k);
      PwSucc(a, k);
      PwSucc(b, k);
      ProductUp(a as real, b as real, c, Pw(a, k), Pw(b, k), Pw(a, k) * Pw(b, k));
      RCancel(c, Pw(a * b, k), Pw(a, k) * Pw(b, k));
    }
  }

  lemma ProductUp(a: real, b: real, c: real, p: real, q: real, pq: real)
    requires c == a * b && pq == p * q
    ensures c * pq == (a * p) * (b * q)
  {
    assert a * b * p * q == a * p * b * q;
  }
}
