/** js_dtoa_shortest_pow2 of src/dtoa.c: shortest decimal digits of a power of two, whose lower neighbour is closer. */
module PowTwo {
  import opened Powers
  import opened Rounding
  import opened Limbs
  import opened MpbModel
  import opened Doubles
  import opened Nearest
  import opened Shortest
  import opened RoundedScaling
  import opened FreeLoop

  /** `x` cut to `p` digits before exponent `k`. */
  ghost function CutDigits(x: real, r: nat, p: int, k: int): (n: nat)
    requires r >= 1 && x >= 0.0
  {
    Round(TowardZero, Shifted(x, r, p - k))
  }

  /** The decimals next to `x` with `p` digits before exponent `k`. */
  ghost function Below(x: real, r: nat, p: nat, k: int): (d: Decimal)
    requires r >= 1 && x >= 0.0
  {
    Decimal(CutDigits(x, r, p, k), p, k)
  }

  ghost function Above(x: real, r: nat, p: nat, k: int): (d: Decimal)
    requires r >= 1 && x >= 0.0
  {
    Decimal(CutDigits(x, r, p, k) + 1, p, k)
  }

  lemma CutIsFloor(y: real)
    requires y >= 0.0
    ensures Round(TowardZero, y) as real <= y < (Round(TowardZero, y) + 1) as real
    ensures Round(NearestEven, y) == Round(TowardZero, y) || Round(NearestEven, y) == Round(TowardZero, y) + 1
  {}

  lemma Neighbours(x: real, r: nat, p: nat, k: int)
    requires r >= 2 && p >= 1 && x > 0.0 && Pw(r, k - 1) <= x < Pw(r, k)
    ensures DecValue(Below(x, r, p, k), r) <= x < DecValue(Above(x, r, p, k), r)
    ensures Pow(r, p - 1) <= Below(x, r, p, k).mant && Above(x, r, p, k).mant <= Pow(r, p)
    ensures DecValue(Below(x, r, p, k), r) >= Pw(r, k - 1)
  {
    hide Pw, Pow, Shifted, Round;
    var y, n := Shifted(x, r, p - k), CutDigits(x, r, p, k);
    CutIsFloor(y);
    ShiftInverse(x, r, p - k);
    assert -(p - k) == k - p;
    ShiftMono(n as real, y, r, k - p);
    ShiftMono(y, (n + 1) as real, r, k - p);
    ShiftPw(r, k - 1, p - k);
    ShiftPw(r, k, p - k);
    assert k - 1 + (p - k) == p - 1 && k + (p - k) == p;
    ShiftMono(Pw(r, k - 1), x, r, p - k);
    ShiftMono(x, Pw(r, k), r, p - k);
    PwNat(r, p - 1);
    PwNat(r, p);
    ShiftPower(r, p - 1, k - p);
    assert p - 1 + (k - p) == k - 1;
    ShiftMono(Pow(r, p - 1) as real, n as real, r, k - p);
  }

  /** No decimal of at most `p` digits lies strictly between the neighbours. */
  lemma NothingBetween(x: real, r: nat, p: nat, k: int, d: Decimal)
    requires r >= 2 && p >= 1 && x > 0.0 && Pw(r, k - 1) <= x < Pw(r, k) && Fits(d, r, p)
    ensures DecValue(d, r) <= x ==> DecValue(d, r) <= DecValue(Below(x, r, p, k), r)
    ensures DecValue(d, r) > x ==> DecValue(Above(x, r, p, k), r) <= DecValue(d, r)
  {
    hide Pw, Pow, Shifted, Round;
    var i := d.exp - d.digits;
    Neighbours(x, r, p, k);
    if i >= k - p {
      var n, y := d.mant * Pow(r, i - (k - p)), Shifted(x, r, p - k);
      FinerGrid(d.mant, r, i, k - p);
      ShiftInverse(x, r, p - k);
      assert -(p - k) == k - p;
      CutIsFloor(y);
      ShiftMono(y, n as real, r, k - p);
      ShiftMono(n as real, CutDigits(x, r, p, k) as real, r, k - p);
      ShiftMono((CutDigits(x, r, p, k) + 1) as real, n as real, r, k - p);
      if DecValue(d, r) <= x { assert n <= CutDigits(x, r, p, k); }
    } else {
      DecBelow(d, r);
      PwMono(r, d.exp, k - 1);
    }
  }

  /** A double's own value rounds to it. */
  lemma Itself(m: nat, e: int)
    requires Canonical(m, e)
    ensures Real(m, e) > 0.0 && ToDouble(NearestEven, Real(m, e)) == (m, e)
  {
    hide Real, ToDouble, Shifted;
    CanonicalExp(m, e);
    VeryCloseReadsBack(Real(m, e), m, e);
  }

  /** If a decimal of at most `p` digits reads back, so does the neighbour between it and the value. */
  lemma NeighbourReads(m: nat, e: int, r: nat, p: nat, k: int, d: Decimal)
    requires r >= 2 && p >= 1 && Canonical(m, e) && Pw(r, k - 1) <= Real(m, e) < Pw(r, k)
    requires Fits(d, r, p) && ReadsBack(d, r, m, e)
    ensures DecValue(d, r) <= Real(m, e) ==>
      ReadsBack(Below(Real(m, e), r, p, k), r, m, e) && DecValue(d, r) <= DecValue(Below(Real(m, e), r, p, k), r)
    ensures DecValue(d, r) > Real(m, e) ==>
      ReadsBack(Above(Real(m, e), r, p, k), r, m, e) && DecValue(Above(Real(m, e), r, p, k), r) <= DecValue(d, r)
  {
    hide Pw, Real, ToDouble, Fits, DecValue, Below, Above;
    var x, w := Real(m, e), DecValue(d, r);
    Itself(m, e);
    Neighbours(x, r, p, k);
    NothingBetween(x, r, p, k, d);
    if w <= x {
      if w == 0.0 { ToDoubleZero(); }
      RoundedConvex(NearestEven, w, DecValue(Below(x, r, p, k), r), x, m, e);
    } else {
      RoundedConvex(NearestEven, x, DecValue(Above(x, r, p, k), r), w, m, e);
    }
  }

  // ----- the search -----

  /** Reads back, no shorter decimal does, and none of the same length that reads back is closer. */
  ghost predicate ShortestPower(d: Decimal, m: nat, e: int) {
    && ReadsBack(d, 10, m, e)
    && 1 <= d.digits <= 17 && 0 < d.mant < Pow(10, d.digits) && d.mant % 10 != 0
    && (forall w: Decimal :: 1 <= w.digits < d.digits && w.mant < Pow(10, w.digits) ==> !ReadsBack(w, 10, m, e))
    && (forall w: Decimal :: w.digits == d.digits && w.mant < Pow(10, w.digits) && ReadsBack(w, 10, m, e) ==>
          Abs(DecValue(d, 10) - Real(m, e)) <= Abs(DecValue(w, 10) - Real(m, e)))
  }

  /** Both neighbours of `p` digits fail to read back. */
  ghost predicate BothFail(m: nat, e: int, p: nat, k: int) {
    !ReadsBack(Below(Real(m, e), 10, p, k), 10, m, e) && !ReadsBack(Above(Real(m, e), 10, p, k), 10, m, e)
  }

  lemma BothFailNone(m: nat, e: int, p: nat, k: int, w: Decimal)
    requires p >= 1 && Canonical(m, e) && Pw(10, k - 1) <= Real(m, e) < Pw(10, k)
    requires BothFail(m, e, p, k) && Fits(w, 10, p)
    ensures !ReadsBack(w, 10, m, e)
  {
    hide Pw, Real, Fits, ReadsBack, Below, Above, DecValue, Canonical;
    if ReadsBack(w, 10, m, e) { NeighbourReads(m, e, 10, p, k, w); }
  }

  /** The nearest decimal is one of the neighbours and no decimal of at most as many digits is closer. */
  lemma NearClosest(x: real, p: nat, k: int, w: Decimal)
    requires p >= 1 && x > 0.0 && Pw(10, k - 1) <= x < Pw(10, k) && Fits(w, 10, p)
    ensures Abs(DecValue(Decimal(RoundedDigits(x, 10, p, k), p, k), 10) - x) <= Abs(DecValue(w, 10) - x)
  {
    hide Pw, Pow, Abs, RoundedDigits, Below, Above, DecValue;
    var lo, hi := Below(x, 10, p, k), Above(x, 10, p, k);
    var c := DecValue(Decimal(RoundedDigits(x, 10, p, k), p, k), 10);
    Neighbours(x, 10, p, k);
    NothingBetween(x, 10, p, k, w);
    NearOfTwo(x, p, k);
    FartherOut(x, c, DecValue(lo, 10), DecValue(hi, 10), DecValue(w, 10));
  }

  lemma NearOfTwo(x: real, p: nat, k: int)
    requires x > 0.0
    ensures
      var c := DecValue(Decimal(RoundedDigits(x, 10, p, k), p, k), 10);
      && Abs(c - x) <= Abs(DecValue(Below(x, 10, p, k), 10) - x)
      && Abs(c - x) <= Abs(DecValue(Above(x, 10, p, k), 10) - x)
  {
    hide Pw, Abs, RoundedDigits, Shifted, CutDigits;
    RoundedClosest(x, 10, p, k, CutDigits(x, 10, p, k));
    RoundedClosest(x, 10, p, k, CutDigits(x, 10, p, k) + 1);
  }

  lemma FartherOut(x: real, c: real, lo: real, hi: real, w: real)
    requires lo <= x < hi && (w <= lo || hi <= w)
    requires Abs(c - x) <= Abs(lo - x) && Abs(c - x) <= Abs(hi - x)
    ensures Abs(c - x) <= Abs(w - x)
  {}

  /** A neighbour that reads back is closest when it is the nearest decimal, or when the nearest fails. */
  lemma FoundClosest(m: nat, e: int, p: nat, k: int, c: Decimal, w: Decimal)
    requires p >= 1 && Canonical(m, e) && Pw(10, k - 1) <= Real(m, e) < Pw(10, k)
    requires c == Below(Real(m, e), 10, p, k) || c == Above(Real(m, e), 10, p, k)
    requires
      var near := Decimal(RoundedDigits(Real(m, e), 10, p, k), p, k);
      c == near || !ReadsBack(near, 10, m, e)
    requires Fits(w, 10, p) && ReadsBack(w, 10, m, e)
    ensures Abs(DecValue(c, 10) - Real(m, e)) <= Abs(DecValue(w, 10) - Real(m, e))
  {
    hide Pw, Real, Fits, ReadsBack, Below, Above, DecValue, Canonical, RoundedDigits, Abs;
    var x := Real(m, e);
    var near := Decimal(RoundedDigits(x, 10, p, k), p, k);
    CanonicalExp(m, e);
    if c == near {
      NearClosest(x, p, k, w);
    } else {
      NearIsNeighbour(x, p, k);
      NeighbourReads(m, e, 10, p, k, w);
      Neighbours(x, 10, p, k);
      Inside(x, DecValue(c, 10), DecValue(w, 10));
    }
  }

  lemma Inside(x: real, c: real, w: real)
    requires w <= c <= x || x <= c <= w
    ensures Abs(c - x) <= Abs(w - x)
  {}

  lemma NearIsNeighbour(x: real, p: nat, k: int)
    requires x > 0.0
    ensures
      var near := Decimal(RoundedDigits(x, 10, p, k), p, k);
      near == Below(x, 10, p, k) || near == Above(x, 10, p, k)
  {
    hide Shifted;
    CutIsFloor(Shifted(x, 10, p - k));
  }

  /** Seventeen digits always suffice. */
  lemma SeventeenSuffice(m: nat, e: int, k: int)
    requires Canonical(m, e) && Estimate(10, e, k) && Real(m, e) < Pw(10, k)
    ensures !BothFail(m, e, 17, k)
  {
    hide Pw, Pow, Real, ReadsBack, Below, Above, Canonical, RoundedDigits, Candidate;
    var x := Real(m, e);
    TenPowers();
    EnoughDigits(m, e, 10, 17, k);
    EstimateRange(m, e, 10, k);
    var g := CandidateShape(x, 10, 17, k);
    PwReflects(10, g - 1, k);
    PwReflects(10, k - 1, g);
    assert g == k;
    NearIsNeighbour(x, 17, k);
    SameValueReads(Candidate(x, 10, 17, k), Decimal(RoundedDigits(x, 10, 17, k), 17, k), m, e);
  }

  lemma SameValueReads(c: Decimal, d: Decimal, m: nat, e: int)
    requires DecValue(c, 10) == DecValue(d, 10) && ReadsBack(c, 10, m, e)
    ensures ReadsBack(d, 10, m, e)
  {}

  /** The result found at `p` digits, once every smaller number of digits failed. */
  lemma FoundShortest(m: nat, e: int, p: nat, k: int, c: Decimal, d: Decimal)
    requires 1 <= p <= 17 && Canonical(m, e) && Pw(10, k - 1) <= Real(m, e) < Pw(10, k)
    requires c == Below(Real(m, e), 10, p, k) || c == Above(Real(m, e), 10, p, k)
    requires
      var near := Decimal(RoundedDigits(Real(m, e), 10, p, k), p, k);
      c == near || !ReadsBack(near, 10, m, e)
    requires ReadsBack(c, 10, m, e) && (p > 1 ==> BothFail(m, e, p - 1, k))
    requires DecValue(d, 10) == DecValue(c, 10) && 1 <= d.digits <= p && 0 < d.mant < Pow(10, d.digits)
    requires d.mant % 10 != 0
    ensures ShortestPower(d, m, e)
  {
    hide Pw, Pow, Real, Below, Above, DecValue, Canonical, RoundedDigits, Abs, BothFail, ReadsBack;
    SameValueReads(c, d, m, e);
    forall w: Decimal | 1 <= w.digits < d.digits && w.mant < Pow(10, w.digits)
      ensures !ReadsBack(w, 10, m, e)
    {
      BothFailNone(m, e, p - 1, k, w);
    }
    forall w: Decimal | w.digits == d.digits && w.mant < Pow(10, w.digits) && ReadsBack(w, 10, m, e)
      ensures Abs(DecValue(d, 10) - Real(m, e)) <= Abs(DecValue(w, 10) - Real(m, e))
    {
      FoundClosest(m, e, p, k, c, w);
    }
  }

  /** One candidate of the search: drop its trailing zeros, mend the carry to 10^P, and read it back. */
  method TryCandidate(tmp: Mpb, n: Limb, p: nat, m: Limb, e: int, e0: int)
    returns (ok: bool, mant: Limb, pc: nat, k: int)
    requires tmp.Valid() && tmp.tab.Length == CAPACITY
    requires DtoaArgs(m, e, 10, e0) && 1 <= p <= 17 && 0 < n <= Pow(10, p)
    modifies tmp, tmp.tab
    ensures tmp.Valid() && (ok <==> ReadsBack(Decimal(n, p, e0), 10, m, e))
    ensures DecValue(Decimal(mant, pc, k), 10) == DecValue(Decimal(n, p, e0), 10)
    ensures 1 <= pc <= p && 0 < mant < Pow(10, pc) && mant % 10 != 0 && e0 <= k <= e0 + 1
  {
    hide Pow, DecValue, DtoaArgs, ToDouble, Mpb.Value;
    k := e0;
    mant, pc := DropTens(n, p, e0);
    if pc == 0 {
      CarryValue(e0);
      mant, pc, k := 1, 1, e0 + 1;
    }
    TenPowers();
    PowMono(10, pc, 17);
    ok := ReadBack(tmp, m, e, 10, e0, mant, pc, k);
  }

  /** The loop that drops zeros: from 10^P it runs down to no digits at all. */
  method DropTens(n: Limb, p: nat, ghost e0: int) returns (mant: Limb, pc: nat)
    requires 1 <= p && 0 < n <= Pow(10, p)
    ensures DecValue(Decimal(mant, pc, e0), 10) == DecValue(Decimal(n, p, e0), 10) && mant % 10 != 0 && pc <= p
    ensures if pc == 0 then mant == 1 else 0 < mant < Pow(10, pc)
  {
    hide Pow, Shifted;
    mant, pc := n, p;
    PowUnfold(10, 0);
    while mant % 10 == 0
      invariant 0 <= pc <= p && 0 < mant <= Pow(10, pc) && (n < Pow(10, p) ==> pc >= 1 && mant < Pow(10, pc))
      invariant n == Pow(10, p) ==> mant == Pow(10, pc)
      invariant DecValue(Decimal(mant, pc, e0), 10) == DecValue(Decimal(n, p, e0), 10)
      decreases mant
    {
      PowUnfold(10, pc - 1);
      if n < Pow(10, p) { ghost var q := DropZero(mant, 10, pc); }
      StripOne(mant / 10, 10, e0 - pc);
      mant := mant / 10;
      pc := pc - 1;
    }
    if n == Pow(10, p) && pc > 0 { PowUnfold(10, pc - 1); }
  }

  lemma CarryValue(e0: int)
    ensures DecValue(Decimal(1, 1, e0 + 1), 10) == DecValue(Decimal(1, 0, e0), 10)
    ensures Pow(10, 1) == 10
  {
    PowUnfold(10, 0);
  }

  /**
    * js_dtoa_shortest_pow2. It always finds digits for a power of two: at most 17, the fewest that read back.
    */
  method ShortestPow2(tmp: Mpb, m: Limb, e: int, e0: int) returns (found: bool, mant: Limb, pc: nat, k: int)
    requires tmp.Valid() && tmp.tab.Length == CAPACITY
    requires DtoaArgs(m, e, 10, e0) && m == TWO53 / 2 && e >= -1021
    modifies tmp, tmp.tab
    ensures tmp.Valid() && found && ShortestPower(Decimal(mant, pc, k), m, e) && e0 <= k <= e0 + 1
  {
    hide Pw, Pow, Real, Canonical, Estimate, ReadsBack, Below, Above, DecValue, ShortestPower, Mpb.Value;
    ghost var x := Real(m, e);
    PowerValue(m, e, e0);
    found, mant, pc, k := false, 0, 0, 0;
    var p := 1;
    while p <= 17 && !found
      invariant tmp.Valid() && 1 <= p <= 18
      invariant !found && p > 1 ==> BothFail(m, e, p - 1, e0)
      invariant found ==> ShortestPower(Decimal(mant, pc, k), m, e) && e0 <= k <= e0 + 1
      decreases 18 - p, !found
    {
      var near, lo := TwoDigits(tmp, m, e, e0, p);
      Neighbours(x, 10, p, e0);
      NearIsNeighbour(x, p, e0);
      PowPositive(10, p - 1);
      NeighbourForm(x, p, e0, lo);
      found, mant, pc, k := TryCandidate(tmp, near, p, m, e, e0);
      if found {
        FoundShortest(m, e, p, e0, Decimal(near, p, e0), Decimal(mant, pc, k));
      } else {
        var other := if near == lo then lo + 1 else lo;
        found, mant, pc, k := TryCandidate(tmp, other, p, m, e, e0);
        if found {
          FoundShortest(m, e, p, e0, Decimal(other, p, e0), Decimal(mant, pc, k));
        }
      }
      if !found {
        p := p + 1;
      }
    }
    if !found { SeventeenSuffice(m, e, e0); }
  }

  lemma NeighbourForm(x: real, p: nat, k: int, lo: nat)
    requires x > 0.0 && lo == CutDigits(x, 10, p, k)
    ensures Below(x, 10, p, k) == Decimal(lo, p, k) && Above(x, 10, p, k) == Decimal(lo + 1, p, k)
  {}

  lemma PowerValue(m: nat, e: int, e0: int)
    requires DtoaArgs(m, e, 10, e0) && m == TWO53 / 2
    ensures Real(m, e) == Pw(2, e - 1) && Real(m, e) > 0.0 && Pw(10, e0 - 1) <= Real(m, e) < Pw(10, e0)
  {
    hide Pw, Pow;
    Two53();
    PwNat(2, 52);
    PwAdd(2, 52, e - 53);
    assert 52 + (e - 53) == e - 1;
  }

  /** The value to `p` digits, rounded and cut. */
  method TwoDigits(tmp: Mpb, m: Limb, e: int, e0: int, p: nat) returns (near: Limb, lo: Limb)
    requires tmp.Valid() && tmp.tab.Length == CAPACITY
    requires DtoaArgs(m, e, 10, e0) && 1 <= p <= 17 && Real(m, e) > 0.0 && Pw(10, e0 - 1) <= Real(m, e) < Pw(10, e0)
    modifies tmp, tmp.tab
    ensures tmp.Valid() && near == RoundedDigits(Real(m, e), 10, p, e0) && lo == CutDigits(Real(m, e), 10, p, e0)
    ensures lo + 1 < BASE
  {
    hide Pw, Pow, Real, RadixOdd, RadixShift, Estimate, Scaled, Round, Room, Mpb.Value, Shifted;
    TenPowers();
    PowMono(10, p, 17);
    RadixSplit(10);
    OddIsFactor(10);
    RoomForDigits(m, e, 10, e0, p, e0);
    ScaledIsShifted(m, e, 10, p - e0);
    Neighbours(Real(m, e), 10, p, e0);
    NearIsNeighbour(Real(m, e), p, e0);
    MulPowRound(tmp, m, e - 53, RadixOdd(10), RadixShift(10), p - e0, NearestEven);
    near := tmp.GetU64();
    MulPowRound(tmp, m, e - 53, RadixOdd(10), RadixShift(10), p - e0, TowardZero);
    lo := tmp.GetU64();
  }
}
