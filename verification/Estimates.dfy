/** The radix exponent estimate mul_log2_radix of src/dtoa.c is exact over the exponents of doubles. */
module Estimates {
  import opened Powers
  import opened Rounding
  import opened Tables
  import opened LogTables
  import opened Shortest
  import opened RoundedScaling
  import opened FreeLoop

  /** C division, truncating toward zero. */
  function TruncDiv(a: int, b: int): (q: int)
    requires b > 0
  {
    if a >= 0 then a / b else -(-a / b)
  }

  /** mul_log2_radix: an estimate of the floor of `a / log2(radix)`. */
  function MulLog2Radix(a: int, r: nat): (k: int)
    requires IsRadix(r)
  {
    if IsPow2Radix(r) then
      var bits := RadixShift(r);
      assert bits > 0;
      TruncDiv(if a < 0 then a - (bits - 1) else a, bits)
    else a * LogMultiplier(r) / 0x100_0000
  }

  /** No fraction with a small denominator lies between neighbouring fractions. */
  lemma Farey(k: int, a: int, b: Bracket)
    requires b.p2 * b.q1 == b.p1 * b.q2 + 1 && b.q1 > 0 && b.q2 > 0
    requires k * b.q1 > a * b.p1 && k * b.q2 < a * b.p2
    ensures a >= b.q1 + b.q2
  {
    var u, v := k * b.q1 - a * b.p1, a * b.p2 - k * b.q2;
    MulMono(b.q1, b.q1, 1, v);
    MulMono(b.q2, b.q2, 1, u);
    assert a * (b.p2 * b.q1) - a * (b.p1 * b.q2) == b.q1 * v + b.q2 * u by {
      assert b.q1 * v == a * (b.p2 * b.q1) - k * b.q2 * b.q1;
      assert b.q2 * u == k * b.q2 * b.q1 - a * (b.p1 * b.q2);
    }
    assert a * (b.p1 * b.q2 + 1) == a * (b.p1 * b.q2) + a;
  }

  /** Roots preserve order. */
  lemma RootOrder(x: nat, y: nat, q: nat)
    requires Pow(x, q) < Pow(y, q)
    ensures x < y
  {
    hide Pow;
    if y <= x { PowBaseMono(y, x, q); }
  }

  lemma {:induction false} PowBaseStrict(a: nat, b: nat, k: nat)
    requires a < b && k >= 1
    ensures Pow(a, k) < Pow(b, k)
    decreases k
  {
    PowUnfold(a, 0);
    PowUnfold(b, 0);
    if k > 1 {
      PowBaseStrict(a, b, k - 1);
      MulMono(a, a, Pow(a, k - 1), Pow(b, k - 1));
      StrictMul(a, b, Pow(b, k - 1));
    }
  }

  lemma PowSwap(b: nat, j: nat, k: nat)
    ensures Pow(Pow(b, j), k) == Pow(Pow(b, k), j)
  {
    hide Pow;
    PowPow(b, j, k);
    PowPow(b, k, j);
    assert j * k == k * j;
  }

  lemma PowOrder(r: nat, j: nat, k: nat, j': nat, k': nat)
    requires r >= 1 && j * k <= j' * k'
    ensures Pow(Pow(r, j), k) <= Pow(Pow(r, j'), k')
  {
    hide Pow;
    PowPow(r, j, k);
    PowPow(r, j', k');
    PowMono(r, j * k, j' * k');
  }

  /** From k/a <= p/q < log_r(2): r^k < 2^a. */
  lemma BelowPower(r: nat, k: nat, a: nat, p: nat, q: nat)
    requires r >= 1 && a >= 1 && q >= 1 && k * q <= p * a && Pow(r, p) < Pow(2, q)
    ensures Pow(r, k) < Pow(2, a)
  {
    hide Pow;
    PowOrder(r, k, q, p, a);
    PowBaseStrict(Pow(r, p), Pow(2, q), a);
    PowSwap(2, q, a);
    RootOrder(Pow(r, k), Pow(2, a), q);
  }

  /** From k/a >= p/q > log_r(2): 2^a < r^k. */
  lemma AbovePower(r: nat, k: nat, a: nat, p: nat, q: nat)
    requires r >= 1 && a >= 1 && q >= 1 && k * q >= p * a && Pow(r, p) > Pow(2, q)
    ensures Pow(r, k) > Pow(2, a)
  {
    hide Pow;
    PowOrder(r, p, a, k, q);
    PowBaseStrict(Pow(2, q), Pow(r, p), a);
    PowSwap(2, q, a);
    RootOrder(Pow(2, a), Pow(r, k), q);
  }

  /** Integers around a multiple of the multiplier are around the same multiple of the true logarithm. */
  lemma BracketSides(low: int, high: int, a: int, mult: nat, b: Bracket)
    requires 0 < a <= 1100 && low * 0x100_0000 <= a * mult <= high * 0x100_0000
    requires b.q1 > 0 && b.q2 > 0 && b.p2 * b.q1 == b.p1 * b.q2 + 1 && b.q1 + b.q2 > 1100
    requires b.p1 * 0x100_0000 < mult * b.q1 && mult * b.q2 < b.p2 * 0x100_0000
    ensures low * b.q1 <= a * b.p1 && high * b.q2 >= a * b.p2
  {
    StrictMul(mult * b.q2, b.p2 * 0x100_0000, a);
    StrictMul(b.p1 * 0x100_0000, mult * b.q1, a);
    ScaleBy(low, a, mult, b.q2, b.p2);
    ScaleBelow(high, a, mult, b.q1, b.p1);
    if low * b.q1 > a * b.p1 { Farey(low, a, b); }
    if high * b.q2 < a * b.p2 { Farey(high, a, b); }
  }

  lemma ScaleBy(k: int, a: int, mult: int, q: int, p: int)
    requires q > 0 && k * 0x100_0000 <= a * mult && (mult * q) * a < (p * 0x100_0000) * a
    ensures k * q < a * p
  {
    MulNonNegative(a * mult - k * 0x100_0000, q);
    assert (a * mult) * q == (mult * q) * a && (k * 0x100_0000) * q == (k * q) * 0x100_0000;
    assert (a * mult - k * 0x100_0000) * q == (a * mult) * q - (k * 0x100_0000) * q;
    assert (p * 0x100_0000) * a == (a * p) * 0x100_0000;
  }

  lemma ScaleBelow(k: int, a: int, mult: int, q: int, p: int)
    requires q > 0 && a * mult <= k * 0x100_0000 && (p * 0x100_0000) * a < (mult * q) * a
    ensures k * q > a * p
  {
    MulNonNegative(k * 0x100_0000 - a * mult, q);
    assert (a * mult) * q == (mult * q) * a && (k * 0x100_0000) * q == (k * q) * 0x100_0000;
    assert (k * 0x100_0000 - a * mult) * q == (k * 0x100_0000) * q - (a * mult) * q;
    assert (p * 0x100_0000) * a == (a * p) * 0x100_0000;
  }

  // ----- the estimate -----

  /** `k` is the floor of the radix logarithm of 2^a. */
  ghost predicate FloorLog(r: nat, a: int, k: int)
    requires r >= 1
  {
    Pw(r, k) <= Pw(2, a) < Pw(r, k + 1)
  }

  lemma FloorTrunc(a: int, bits: int)
    requires bits > 0
    ensures TruncDiv(if a < 0 then a - (bits - 1) else a, bits) == a / bits
  {
    if a < 0 {
      var n := -(a - (bits - 1));
      var q, r := n / bits, n % bits;
      assert n == q * bits + r;
      assert a == (-q) * bits + (bits - 1 - r) by { assert (-q) * bits == -(q * bits); }
      DivModUnique(a, bits, -q, bits - 1 - r);
    }
  }

  lemma FloorLogPow2(r: nat, a: int)
    requires IsPow2Radix(r)
    ensures FloorLog(r, a, MulLog2Radix(a, r))
  {
    hide Pw, Pow, RadixShift, TruncDiv;
    var t := ShiftOf(r);
    FloorTrunc(a, t);
    var k := a / t;
    assert a == k * t + a % t;
    assert (k + 1) * t == k * t + t;
    PwOfPow(2, t, k);
    PwOfPow(2, t, k + 1);
    PwMono(2, k * t, a);
    PwStrict(2, a, (k + 1) * t);
  }

  lemma ShiftOf(r: nat) returns (t: nat)
    requires IsPow2Radix(r)
    ensures t == RadixShift(r) && t > 0 && r == Pow(2, t)
  {
    t := RadixShift(r);
    RadixSplit(r);
    assert RadixOdd(r) == 1;
  }

  lemma FloorLogTable(r: nat, a: int)
    requires NeedsBracket(r) && -1100 <= a <= 1100
    ensures FloorLog(r, a, MulLog2Radix(a, r))
  {
    hide Pw, Pow, LogBracket, LogMultiplier, MaxExponent, MinExponentNeg, AtodMaxDigits;
    LogTable(r);
    var b, mult, k := LogBracket(r), LogMultiplier(r), MulLog2Radix(a, r);
    if a == 0 {
      PwSucc(r, 0);
    } else if a > 0 {
      BracketSides(k, k + 1, a, mult, b);
      assert k >= 0 by { MulNonNegative(a, mult); }
      BelowPower(r, k, a, b.p1, b.q1);
      AbovePower(r, k + 1, a, b.p2, b.q2);
      PwNat(r, k);
      PwNat(r, k + 1);
      PwNat(2, a);
    } else {
      var c := -k;
      NegFloor(a, mult, k);
      BracketSides(c - 1, c, -a, mult, b);
      BelowPower(r, c - 1, -a, b.p1, b.q1);
      AbovePower(r, c, -a, b.p2, b.q2);
      InversePowers(r, c, -a);
      InversePowers(r, c - 1, -a);
      assert -(c - 1) == k + 1;
    }
  }

  lemma NegFloor(a: int, mult: nat, k: int)
    requires a < 0 && k == a * mult / 0x100_0000 && mult > 0
    ensures k <= -1 && (-k - 1) * 0x100_0000 <= -a * mult <= -k * 0x100_0000
  {
    assert -a * mult == -(a * mult);
    MulMono(1, -a, 1, mult);
  }

  lemma InversePowers(r: nat, c: nat, b: nat)
    requires r >= 1
    ensures Pow(r, c) > Pow(2, b) ==> Pw(r, -(c as int)) < Pw(2, -(b as int))
    ensures Pow(r, c) < Pow(2, b) ==> Pw(r, -(c as int)) > Pw(2, -(b as int))
  {
    hide Pw, Pow;
    PwNat(r, c);
    PwNat(2, b);
    PwAdd(r, c, -(c as int));
    PwAdd(2, b, -(b as int));
    InverseStrict(Pw(r, c), Pw(r, -(c as int)), Pw(2, b), Pw(2, -(b as int)), Pw(r, 0));
  }

  lemma InverseStrict(a: real, a': real, b: real, b': real, one: real)
    requires a > 0.0 && b > 0.0 && a' > 0.0 && b' > 0.0 && one == a * a' && one == b * b'
    ensures a > b ==> a' < b'
    ensures a < b ==> a' > b'
  {
    if a > b && a' >= b' { RMulStrict(b, a, b'); RMulMono(b', a', a); }
    if a < b && a' <= b' { RMulStrict(a, b, a'); RMulMono(a', b', b); }
  }

  /** The exponent estimate js_dtoa starts from is exact for every finite double and every radix. */
  lemma EstimateExact(e: int, r: nat)
    requires IsRadix(r) && -1073 <= e <= 1024
    ensures Estimate(r, e, 1 + MulLog2Radix(e - 1, r))
  {
    hide Pw, MulLog2Radix;
    if IsPow2Radix(r) { FloorLogPow2(r, e - 1); } else { FloorLogTable(r, e - 1); }
  }

  // ----- the exponent bounds of js_atod -----

  /** max_exponent and min_exponent are the least exponents that bound the range of doubles. */
  lemma ExponentTables(r: nat)
    requires NeedsBracket(r)
    ensures MaxExponent(r) >= 1 && Pow(r, MaxExponent(r) - 1) < Pow(2, 1024)
    ensures MinExponentNeg(r) >= 1 && Pow(r, MinExponentNeg(r) - 1) < Pow(2, 1075)
    ensures Pow(2, 1024) <= Pow(r, MaxExponent(r)) <= Pow(2, 1060)
    ensures Pow(2, 1075) <= Pow(r, MinExponentNeg(r)) <= Pow(2, 1110)
  {
    hide Pow, LogBracket, LogMultiplier, MaxExponent, MinExponentNeg, AtodMaxDigits;
    LogTable(r);
    var b := LogBracket(r);
    AbovePower(r, MaxExponent(r), 1024, b.p2, b.q2);
    AbovePower(r, MinExponentNeg(r), 1075, b.p2, b.q2);
    BelowPower(r, MaxExponent(r), 1060, b.p1, b.q1);
    BelowPower(r, MinExponentNeg(r), 1110, b.p1, b.q1);
    ExponentsPositive(MaxExponent(r), 1024, b.p2, b.q2);
    ExponentsPositive(MinExponentNeg(r), 1075, b.p2, b.q2);
    BelowPower(r, MaxExponent(r) - 1, 1024, b.p1, b.q1);
    BelowPower(r, MinExponentNeg(r) - 1, 1075, b.p1, b.q1);
  }

  lemma ExponentsPositive(c: nat, b: nat, p: nat, q: nat)
    requires b >= 1 && p >= 1 && q * c >= b * p
    ensures c >= 1
  {
    if c == 0 { MulMono(1, b, 1, p); }
  }

  /**
    * js_atod keeps as many digits as fit two limbs, in a power-of-two radix as many as fit one; there they fill at
    * least 56 bits.
    */
  lemma KeptDigits(r: nat)
    requires IsRadix(r)
    ensures !IsPow2Radix(r) ==> Pow(r, AtodMaxDigits(r) + 1) > Pow(2, 128)
    ensures IsPow2Radix(r) ==> Pow(r, AtodMaxDigits(r)) <= Pow(2, 64) < Pow(r, AtodMaxDigits(r) + 1)
    ensures AtodMaxDigits(r) >= 12 && Pow(r, AtodMaxDigits(r)) <= Pow(2, 128)
    ensures IsPow2Radix(r) ==> Pow(r, AtodMaxDigits(r) - 1) >= Pow(2, 55)
  {
    hide Pow, LogBracket, LogMultiplier, MaxExponent, MinExponentNeg;
    var d := AtodMaxDigits(r);
    if IsPow2Radix(r) {
      var t := ShiftOf(r);
      ShiftValues(r);
      PowPow(2, t, d);
      PowPow(2, t, d - 1);
      PowPow(2, t, d + 1);
      PowMono(2, t * d, 64);
      PowMono(2, 64, 128);
      PowMono(2, 65, t * (d + 1));
      PowUnfold(2, 64);
      PowPositive(2, 64);
      PowMono(2, 55, t * (d - 1));
    } else {
      LogTable(r);
      BelowPower(r, d, 128, LogBracket(r).p1, LogBracket(r).q1);
      AbovePower(r, d + 1, 128, LogBracket(r).p2, LogBracket(r).q2);
    }
  }

  lemma ShiftValues(r: nat)
    requires IsPow2Radix(r)
    ensures 55 <= RadixShift(r) * (AtodMaxDigits(r) - 1)
    ensures RadixShift(r) * AtodMaxDigits(r) <= 64 < RadixShift(r) * (AtodMaxDigits(r) + 1)
  {
    assert RadixShift(2) == 1 && RadixShift(4) == 2 && RadixShift(8) == 3 && RadixShift(16) == 4 && RadixShift(32) == 5;
  }
}
