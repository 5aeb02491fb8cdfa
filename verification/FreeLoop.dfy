/** The free-format digit loop of js_dtoa over its 26-limb scratch number. */
module FreeLoop {
  import opened Powers
  import opened Rounding
  import opened Limbs
  import opened MpbModel
  import opened Tables
  import opened Scaling
  import opened Doubles
  import opened Nearest
  import opened Shortest
  import opened RoundedScaling

  /** DBIGNUM_LEN_MAX. */
  const CAPACITY: nat := 26

  /** The trailing zero bits of a radix (ctz32). */
  function RadixShift(r: nat): (k: nat)
    requires r >= 1
  {
    if r % 2 == 0 then 1 + RadixShift(r / 2) else 0
  }

  /** The odd part of a radix. */
  function RadixOdd(r: nat): (o: nat)
    requires r >= 1
    ensures 1 <= o <= r && o % 2 == 1
  {
    if r % 2 == 0 then RadixOdd(r / 2) else r
  }

  lemma {:induction false} RadixSplit(r: nat)
    requires r >= 1
    ensures RadixOdd(r) * Pow(2, RadixShift(r)) == r
    decreases r
  {
    if r % 2 == 0 {
      RadixSplit(r / 2);
      PowUnfold(2, RadixShift(r / 2));
      assert RadixOdd(r) * Pow(2, RadixShift(r)) == 2 * (RadixOdd(r / 2) * Pow(2, RadixShift(r / 2)));
    }
  }

  lemma OddIsFactor(r: nat)
    requires IsRadix(r)
    ensures IsFactor(RadixOdd(r))
  {}

  /** A finite double in range and an exponent estimate for it. */
  ghost predicate DtoaArgs(m: nat, e: int, r: nat, e0: int) {
    Canonical(m, e) && -1073 <= e <= 1024 && IsRadix(r) && Estimate(r, e, e0)
  }

  // ----- the scratch number is large enough -----

  lemma NatBound(r: nat, f: nat, b: nat)
    requires r >= 1 && Pw(r, f) <= Pw(2, b)
    ensures Pow(r, f) <= Pow(2, b)
  {
    hide Pw, Pow;
    PwNat(r, f);
    PwNat(2, b);
  }

  /** Powers of the radix up to one past the estimate stay below 2^1035. */
  lemma PowerUp(m: nat, e: int, r: nat, e0: int, f: int)
    requires DtoaArgs(m, e, r, e0) && f <= e0 + 1
    ensures Pw(r, f) <= Pw(2, 1035)
  {
    hide Pw, Canonical;
    PwMono(r, f, e0 + 1);
    PwAdd(r, 2, e0 - 1);
    assert 2 + (e0 - 1) == e0 + 1;
    PwNat(r, 2);
    SquareSmall(r);
    PwMono(2, e - 1, 1023);
    PwAdd(2, 12, 1023);
    PwNat(2, 12);
    ProductMono(Pw(r, 2), Pw(2, 12), Pw(r, e0 - 1), Pw(2, 1023), Pw(r, e0 + 1), Pw(2, 1035));
  }

  lemma SquareSmall(r: nat)
    requires r <= 36
    ensures Pow(r, 2) <= 1296 <= Pow(2, 12)
  {
    SquareIsPow(2, 12);
    assert Square(2, 12) == 4096;
    PowUnfold(r, 1);
    PowUnfold(r, 0);
    MulMono(r, 36, r, 36);
  }

  lemma ProductMono(a: real, b: real, c: real, d: real, ac: real, bd: real)
    requires 0.0 <= a <= b && 0.0 <= c <= d && ac == a * c && bd == b * d
    ensures ac <= bd
  {
    RMulMono(a, b, c);
    RMulMono(c, d, b);
  }

  /** Powers of the radix scaling up to `p` digits stay below 2^1137. */
  lemma PowerDown(m: nat, e: int, r: nat, e0: int, p: nat, f: int)
    requires DtoaArgs(m, e, r, e0) && Pow(r, p) < BASE / 2 && f <= p - e0
    ensures Pw(r, f) <= Pw(2, 1137)
  {
    hide Pw, Canonical, Pow;
    PwMono(r, f, p - e0);
    PwAdd(r, p, -e0);
    assert p + -e0 == p - e0;
    PwNat(r, p);
    Base64();
    PowUnfold(2, 63);
    PwNat(2, 63);
    PwAdd(r, e0, -e0);
    PwAdd(2, e - 1, 1 - e);
    assert e0 + -e0 == 0 && e - 1 + (1 - e) == 0;
    InverseOrder(Pw(r, e0), Pw(r, -e0), Pw(2, e - 1), Pw(2, 1 - e), Pw(r, 0));
    PwMono(2, 1 - e, 1074);
    PwAdd(2, 63, 1074);
    ProductMono(Pw(r, p), Pw(2, 63), Pw(r, -e0), Pw(2, 1074), Pw(r, p - e0), Pw(2, 1137));
  }

  lemma InverseOrder(a: real, a': real, b: real, b': real, one: real)
    requires 0.0 < b <= a && a' > 0.0 && b' > 0.0 && one == a * a' && one == b * b'
    ensures a' <= b'
  {
    if a' > b' {
      RMulStrict(b', a', a);
      RMulMono(b, a, b');
    }
  }

  lemma DivisionsBound(radix1: nat, f: nat, b: nat)
    requires IsFactor(radix1) && radix1 != 1 && f >= 1 && Pow(radix1, f) <= Pow(2, b)
    ensures 58 * (Divisions(radix1, f) - 1) <= b
  {
    hide Pow, DigitsPerLimb;
    DigitsTable(radix1);
    var d, l := DigitsPerLimb(radix1), Divisions(radix1, f);
    LastDivision(f, d, l);
    PowMono(radix1, d * (l - 1), f);
    PowPow(radix1, d, l - 1);
    SquareIsPow(2, 58);
    assert Square(2, 58) == 0x400_0000_0000_0000;
    PowBaseMono(Pow(2, 58), Pow(radix1, d), l - 1);
    PowPow(2, 58, l - 1);
    PowUnfold(2, b);
    PowPositive(2, b);
    if 58 * (l - 1) > b { PowMono(2, b + 1, 58 * (l - 1)); }
  }

  lemma LastDivision(f: nat, d: nat, l: nat)
    requires d > 0 && f >= 1 && l == (f + d - 1) / d
    ensures l >= 1 && d * (l - 1) <= f
  {
    var g := f + d - 1;
    assert g == d * l + g % d;
    assert d * (l - 1) == d * l - d;
  }

  lemma OddPower(r: nat, f: nat, b: nat)
    requires IsRadix(r) && Pw(r, f) <= Pw(2, b)
    ensures Pow(RadixOdd(r), f) <= Pow(2, b)
  {
    hide Pw, Pow, RadixOdd;
    NatBound(r, f, b);
    PowBaseMono(RadixOdd(r), r, f);
  }

  lemma CapacityBits(b: nat, k: nat)
    requires b <= 64 * k
    ensures Pow(2, b) <= Pow(BASE, k)
  {
    hide Pow;
    PowBase(k);
    PowMono(2, b, 64 * k);
  }

  lemma DigitsAtMostTwice(x: real, r: nat, p: nat, k: int)
    requires r >= 1 && 0.0 <= x < 2.0 * Pw(r, k)
    ensures RoundedDigits(x, r, p, k) <= 2 * Pow(r, p)
  {
    hide Pw, Pow, Shifted, Round;
    ShiftPw(r, k, p - k);
    assert k + (p - k) == p;
    ShiftTwice(x, Pw(r, k), r, p - k);
    PwNat(r, p);
    RoundMono(NearestEven, Shifted(x, r, p - k), (2 * Pow(r, p)) as real);
    RoundInt(NearestEven, 2 * Pow(r, p));
  }

  /** The digits before the estimate's exponent, or the next, fit a limb. */
  lemma DigitsFit(m: nat, e: int, r: nat, e0: int, p: nat, k: int)
    requires DtoaArgs(m, e, r, e0) && Pow(r, p) < BASE / 2 && k >= e0
    ensures RoundedDigits(Real(m, e), r, p, k) < BASE
  {
    hide Pw, Pow, Real, Canonical, RoundedDigits, Estimate;
    EstimateRange(m, e, r, e0);
    PwMono(r, e0, k);
    DigitsAtMostTwice(Real(m, e), r, p, k);
  }

  lemma ScaledIsShifted(m: nat, e: int, r: nat, f: int)
    requires r >= 1
    ensures Scaled(m, e - 53, r, f) == Shifted(Real(m, e), r, f)
  {}

  lemma RoomForDigits(m: nat, e: int, r: nat, e0: int, p: nat, k: int)
    requires DtoaArgs(m, e, r, e0) && p >= 1 && Pow(r, p) < BASE / 2 && e0 <= k <= e0 + 1
    ensures IsFactor(RadixOdd(r))
    ensures Room(m, e - 53, RadixOdd(r), RadixShift(r), p - k, CAPACITY)
  {
    hide Pw, Pow, Real, Canonical, RadixOdd, RadixShift, Estimate, DownShift, BitLen, RoundedDigits;
    OddIsFactor(r);
    ArgsPositive(m, e, r, e0);
    var o, t, f := RadixOdd(r), RadixShift(r), p - k;
    if o == 1 || f >= 0 {
      RoomUp(m, e, r, e0, p, k);
    } else {
      PowerUp(m, e, r, e0, -f);
      OddPower(r, -f, 1035);
      DivisionsBound(o, -f, 1035);
      DownSmall(o, t, -f, e - 53, BitLen(m));
    }
  }

  lemma ArgsPositive(m: nat, e: int, r: nat, e0: int)
    requires DtoaArgs(m, e, r, e0)
    ensures m > 0
  {}

  lemma DownSmall(o: nat, t: nat, f: nat, e: int, bits: nat)
    requires IsFactor(o) && o != 1 && f >= 1 && 58 * (Divisions(o, f) - 1) <= 1035 && e <= 971
    ensures 1 + (DownShift(o, t, f, true, e, bits) + 63) / 64 <= CAPACITY
  {
    hide Divisions;
    MulNonNegative(f, t);
  }

  lemma RoomUp(m: nat, e: int, r: nat, e0: int, p: nat, k: int)
    requires DtoaArgs(m, e, r, e0) && p >= 1 && Pow(r, p) < BASE / 2 && e0 <= k <= e0 + 1
    requires RadixOdd(r) == 1 || p - k >= 0
    ensures
      var o, t, f := RadixOdd(r), RadixShift(r), p - k;
      var v := m * Pow(o, if o == 1 then 0 else f);
      && v < Pow(BASE, CAPACITY)
      && (e - 53 + f * t > 0 ==> v * Pow(2, e - 53 + f * t) < Pow(BASE, CAPACITY - 1))
  {
    hide Pw, Pow, Real, RadixOdd, RadixShift, Estimate, RoundedDigits, Scaled, Round, RoundQuot;
    OddIsFactor(r);
    RadixSplit(r);
    var o, t, f := RadixOdd(r), RadixShift(r), p - k;
    UpFits(m, e, r, e0, p, k);
    if e - 53 + f * t > 0 {
      PowUnfold(o, 0);
      UpRounded(NearestEven, m, e - 53, o, t, f, m * Pow(o, if o == 1 then 0 else f));
      RoundedIs(m, e, r, p, k);
      DigitsFit(m, e, r, e0, p, k);
      PowUnfold(BASE, 0);
      PowMono(BASE, 1, CAPACITY - 1);
    }
  }

  lemma UpFits(m: nat, e: int, r: nat, e0: int, p: nat, k: int)
    requires DtoaArgs(m, e, r, e0) && p >= 1 && Pow(r, p) < BASE / 2 && e0 <= k <= e0 + 1
    requires RadixOdd(r) == 1 || p - k >= 0
    ensures m * Pow(RadixOdd(r), if RadixOdd(r) == 1 then 0 else p - k) < Pow(BASE, CAPACITY)
  {
    hide Pw, Pow, RadixOdd, Estimate;
    var o, f := RadixOdd(r), p - k;
    PowUnfold(o, 0);
    PowPositive(2, 1137);
    if o != 1 {
      PowerDown(m, e, r, e0, p, f);
      OddPower(r, f, 1137);
    }
    Two53();
    MulMono(m, m, Pow(o, if o == 1 then 0 else f), Pow(2, 1137));
    StrictMul(m, Pow(2, 53), Pow(2, 1137));
    PowAdd(2, 53, 1137);
    CapacityBits(1190, CAPACITY);
  }

  lemma RoundedIs(m: nat, e: int, r: nat, p: nat, k: int)
    requires r >= 1
    ensures Round(NearestEven, Scaled(m, e - 53, r, p - k)) == RoundedDigits(Real(m, e), r, p, k)
  {
    hide Round, Real, Scaled, Shifted;
    ScaledIsShifted(m, e, r, p - k);
  }

  lemma RoomToRead(m: nat, e: int, r: nat, e0: int, mant: nat, p: nat, k: int)
    requires DtoaArgs(m, e, r, e0) && p >= 1 && Pow(r, p) < BASE / 2 && e0 <= k <= e0 + 1 && mant < Pow(r, p)
    ensures IsFactor(RadixOdd(r))
    ensures RoomToD(mant, 1, RadixOdd(r), RadixShift(r), k - p, CAPACITY)
  {
    hide Pw, Pow, Real, Canonical, RadixOdd, RadixShift, Estimate, DownShift, BitLen;
    OddIsFactor(r);
    var o, t, f := RadixOdd(r), RadixShift(r), k - p;
    if o != 1 && f >= 0 {
      PowerUp(m, e, r, e0, f);
      OddPower(r, f, 1035);
      Base64();
      PowPositive(2, 1035);
      PowAdd(2, 64, 1035);
      CapacityBits(1099, CAPACITY);
      MulMono(mant, BASE, Pow(o, f), Pow(2, 1035));
      StrictMul(mant, BASE, Pow(2, 1035));
      MulMono(mant, mant, Pow(o, f), Pow(2, 1035));
    }
    if o != 1 && f < 0 {
      PowerDown(m, e, r, e0, p, -f);
      OddPower(r, -f, 1137);
      DivisionsBound(o, -f, 1137);
      DownSmallRead(o, t, -f, BitLen(mant));
    }
  }

  lemma DownSmallRead(o: nat, t: nat, f: nat, bits: nat)
    requires IsFactor(o) && o != 1 && f >= 1 && 58 * (Divisions(o, f) - 1) <= 1137
    ensures 1 + (DownShift(o, t, f, false, 55, bits) + 63) / 64 <= CAPACITY
  {
    hide Divisions;
  }

  // ----- the loop -----

  /** The inner loop: `p` digits at the estimated exponent, or at the next when they overflow. */
  method CandidateDigits(tmp: Mpb, m: Limb, e: int, r: nat, p: nat, e0: int) returns (mant: Limb, k: int)
    requires tmp.Valid() && tmp.tab.Length == CAPACITY
    requires DtoaArgs(m, e, r, e0) && p >= 1 && Pow(r, p) < BASE / 2
    modifies tmp, tmp.tab
    ensures tmp.Valid()
    ensures Decimal(mant, p, k) == Candidate(Real(m, e), r, p, e0) && e0 <= k <= e0 + 1
    ensures 0 < mant < Pow(r, p)
  {
    hide Pw, Pow, Real, Canonical, Estimate, RoundedDigits, Mpb.Value;
    EstimateRange(m, e, r, e0);
    ghost var g := CandidateShape(Real(m, e), r, p, e0);
    PowPositive(r, p - 1);
    var mantMax := PowUi(r, p);
    k := e0;
    while true
      invariant tmp.Valid() && (k == e0 || (k == e0 + 1 && RoundedDigits(Real(m, e), r, p, e0) >= Pow(r, p)))
      decreases e0 + 1 - k
    {
      mant := DigitsAt(tmp, m, e, r, p, e0, k);
      if mant < mantMax {
        break;
      }
      k := k + 1;
    }
  }

  /** The value to `p` digits before exponent `k`. */
  method DigitsAt(tmp: Mpb, m: Limb, e: int, r: nat, p: nat, ghost e0: int, k: int) returns (mant: Limb)
    requires tmp.Valid() && tmp.tab.Length == CAPACITY
    requires DtoaArgs(m, e, r, e0) && p >= 1 && Pow(r, p) < BASE / 2 && e0 <= k <= e0 + 1
    modifies tmp, tmp.tab
    ensures tmp.Valid() && mant == RoundedDigits(Real(m, e), r, p, k)
  {
    hide Pw, Pow, Real, RadixOdd, RadixShift, Estimate, RoundedDigits, Scaled, Round, Room, Mpb.Value;
    RadixSplit(r);
    RoomForDigits(m, e, r, e0, p, k);
    MulPowRound(tmp, m, e - 53, RadixOdd(r), RadixShift(r), p - k, NearestEven);
    RoundedIs(m, e, r, p, k);
    DigitsFit(m, e, r, e0, p, k);
    mant := tmp.GetU64();
  }

  /** The loop that drops trailing zero digits. */
  method DropZeros(mant0: Limb, p0: nat, r: nat, ghost k: int) returns (mant: Limb, p: nat)
    requires r >= 2 && p0 >= 1 && 0 < mant0 < Pow(r, p0)
    ensures Decimal(mant, p, k) == Strip(Decimal(mant0, p0, k), r)
    ensures 1 <= p <= p0 && 0 < mant < Pow(r, p)
  {
    hide Pow;
    mant, p := mant0, p0;
    while mant % r == 0
      invariant 1 <= p <= p0 && 0 < mant < Pow(r, p)
      invariant Strip(Decimal(mant, p, k), r) == Strip(Decimal(mant0, p0, k), r)
      decreases mant
    {
      ghost var q := DropZero(mant, r, p);
      mant := mant / r;
      p := p - 1;
    }
  }

  /** Reading a decimal back as js_dtoa checks it. */
  method ReadBack(tmp: Mpb, m: Limb, e: int, r: nat, e0: int, mant: Limb, p: nat, k: int) returns (same: bool)
    requires tmp.Valid() && tmp.tab.Length == CAPACITY
    requires DtoaArgs(m, e, r, e0) && p >= 1 && Pow(r, p) < BASE / 2 && e0 <= k <= e0 + 1 && mant < Pow(r, p)
    modifies tmp, tmp.tab
    ensures tmp.Valid() && (same <==> ReadsBack(Decimal(mant, p, k), r, m, e))
  {
    hide Pw, Pow, Real, Canonical, RadixOdd, RadixShift, Estimate, RoomToD, Mpb.Value, ToDouble, Scaled, Shifted;
    RadixSplit(r);
    RoomToRead(m, e, r, e0, mant, p, k);
    tmp.SetU64(mant);
    var m1, e1 := MulPowRoundToD(tmp, RadixOdd(r), RadixShift(r), k - p, NearestEven);
    ScaledInt(mant, r, k - p);
    same := m1 == m && e1 == e;
  }

  lemma ScaledInt(n: nat, r: nat, f: int)
    requires r >= 1
    ensures Scaled(n, 0, r, f) == Shifted(n as real, r, f)
  {}

  /** The free format of js_dtoa. */
  method FreeDigits(tmp: Mpb, m: Limb, e: int, r: nat, e0: int) returns (mant: Limb, p: nat, k: int)
    requires tmp.Valid() && tmp.tab.Length == CAPACITY && DtoaArgs(m, e, r, e0)
    modifies tmp, tmp.tab
    ensures tmp.Valid() && Decimal(mant, p, k) == Free(m, e, r, e0, DtoaMaxDigits(r))
    ensures Good(Decimal(mant, p, k), r, m, e) && p <= DtoaMaxDigits(r)
    ensures Symmetric(m, e) ==> ShortestDigits(Decimal(mant, p, k), r, m, e)
  {
    hide Pow, Real, Canonical, Estimate, Candidate, Strip, ReadsBack, DtoaMaxDigits, Good, ShortestDigits, Mpb.Value;
    DtoaTable(r);
    var pMax := DtoaMaxDigits(r);
    FreeShortest(m, e, r, e0, pMax);
    var pFound, kFound, mantFound: Limb := 0, 0, 0;
    p := pMax;
    while true
      invariant tmp.Valid() && 1 <= p <= pMax
      invariant pFound == 0 ==> p == pMax
      invariant pFound > 0 ==> FreeFrom(m, e, r, e0, p, Decimal(mantFound, pFound, kFound)) == Free(m, e, r, e0, pMax)
      decreases p
    {
      PowMono(r, p, pMax);
      mant, k := CandidateDigits(tmp, m, e, r, p, e0);
      ghost var p0 := p;
      mant, p := DropZeros(mant, p, r, k);
      if pFound != 0 {
        PowMono(r, p, pMax);
        var same := ReadBack(tmp, m, e, r, e0, mant, p, k);
        if !same {
          break;
        }
      }
      pFound, kFound, mantFound := p, k, mant;
      if p == 1 {
        break;
      }
      p := p - 1;
    }
    p, k, mant := pFound, kFound, mantFound;
  }
}
