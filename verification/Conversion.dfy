/** From digits and exponent to the nearest double: the second half of js_atod in src/dtoa.c. */
module Conversion {
  import opened Powers
  import opened Rounding
  import opened Limbs
  import opened MpbModel
  import opened Tables
  import opened LogTables
  import opened Scaling
  import opened Doubles
  import opened Nearest
  import opened DoubleBits
  import opened RoundedScaling
  import opened StickyRounding
  import opened Hardware
  import opened FreeLoop
  import opened Estimates
  import opened Literal
  import opened DigitReader
  import opened LiteralValue

  // ----- the sticky digit of a power-of-two radix -----

  /** The kept digits, with the low bit set when a dropped digit is not zero, are the sticky quotient of all digits. */
  lemma KeptSticky(ds: seq<nat>, r: nat)
    requires IsRadix(r) && AreDigits(ds, r)
    ensures
      var z, kept := LeadingZeros(ds), Kept(ds, r);
      var d := Pow(r, |ds| - z - |kept|);
      && d > 0 && Num(ds, r) / d == Num(kept, r)
      && (Num(ds, r) % d == 0 <==> forall i :: z + |kept| <= i < |ds| ==> ds[i] == 0)
  {
    hide Num, Pow, LeadingZeros, AtodMaxDigits;
    var z, kept := LeadingZeros(ds), Kept(ds, r);
    KeptDigits(r);
    var rest := ds[z + |kept|..];
    assert ds[z..] == kept + rest;
    NumSkipZeros(ds, r);
    NumConcat(kept, rest, r);
    NumBound(rest, r);
    NumZeros(rest, r);
    PowPositive(r, |rest|);
    DivModUnique(Num(ds, r), Pow(r, |rest|), Num(kept, r), Num(rest, r));
    if forall i :: 0 <= i < |rest| ==> rest[i] == 0 {
      forall i | z + |kept| <= i < |ds| ensures ds[i] == 0 { assert rest[i - z - |kept|] == ds[i]; }
    }
  }

  /** Dropping digits leaves at least 56 bits. */
  lemma KeptBits(ds: seq<nat>, r: nat)
    requires IsPow2Radix(r) && AreDigits(ds, r) && LeadingZeros(ds) + |Kept(ds, r)| < |ds|
    ensures Num(Kept(ds, r), r) >= Pow(2, 55)
  {
    hide Num, Pow, LeadingZeros, AtodMaxDigits;
    KeptDigits(r);
    NumTop(Kept(ds, r), r);
  }

  /** In a power-of-two radix the value is all the digits times a power of two. */
  lemma BinaryValue(lit: Lit, j: int)
    requires WellFormed(lit) && IsPow2Radix(lit.radix)
    requires j == BinaryScale(lit) + RadixScale(lit, |lit.digits|) * RadixBits(lit.radix)
    ensures ValueOf(lit, |lit.digits|) == Num(lit.digits, lit.radix) as real * Pw(2, j)
  {
    hide Num, Pow, Pw, RadixBits;
    var ds, b := lit.digits, RadixBits(lit.radix);
    assert ds[..|ds|] == ds;
    BitsOfRadix(lit.radix);
    PwOfPow(2, b, RadixScale(lit, |ds|));
    PwAdd(2, BinaryScale(lit), RadixScale(lit, |ds|) * b);
    RMulAssoc(Num(ds, lit.radix) as real, Pw(2, BinaryScale(lit)), Pw(2, RadixScale(lit, |ds|) * b));
  }

  /** What js_atod hands to round_to_d rounds as the whole literal does. */
  lemma BinaryRounded(lit: Lit, t: nat, expn: int)
    requires WellFormed(lit) && IsPow2Radix(lit.radix)
    requires
      var kept := Kept(lit.digits, lit.radix);
      && expn == TopBits(lit) - |kept| * RadixBits(lit.radix)
      && var d := Pow(lit.radix, |lit.digits| - LeadingZeros(lit.digits) - |kept|);
         d > 0 && t == Sticky(Num(lit.digits, lit.radix), d)
    ensures BitsToDouble(NearestEven, t, -expn) == ToDouble(NearestEven, ValueOf(lit, |lit.digits|))
  {
    hide Num, Pow, Pw, LeadingZeros, AtodMaxDigits, RadixBits, ValueOf, ToDouble, BitsToDouble;
    var r, ds, b := lit.radix, lit.digits, RadixBits(lit.radix);
    var z, kept := LeadingZeros(ds), Kept(ds, r);
    var c := |ds| - z - |kept|;
    var n, d, j := Num(ds, r), Pow(r, c), expn - c * b;
    KeptSticky(ds, r);
    OffsetParts(lit, expn, c);
    BinaryValue(lit, j);
    if c == 0 {
      PowUnfold(r, 0);
      AllKept(n, expn, ValueOf(lit, |ds|));
    } else {
      KeptBits(ds, r);
      BitsOfRadix(r);
      SomeDropped(n, b, c, d, expn, ValueOf(lit, |ds|));
    }
  }

  lemma AllKept(n: nat, expn: int, x: real)
    requires x == n as real * Pw(2, expn)
    ensures Sticky(n, 1) == n && x >= 0.0 && BitsToDouble(NearestEven, n, -expn) == ToDouble(NearestEven, x)
  {
    hide Pw, ToDouble, BitsToDouble;
    BitsToDoubleExact(NearestEven, n, -expn);
    assert -(-expn) == expn;
    assert n % 1 == 0 && n / 1 == n;
  }

  lemma SomeDropped(n: nat, b: nat, c: nat, d: nat, expn: int, x: real)
    requires d == Pow(Pow(2, b), c) && d > 0 && n / d >= Pow(2, 55) && x == n as real * Pw(2, expn - c * b)
    ensures x >= 0.0 && BitsToDouble(NearestEven, Sticky(n, d), -expn) == ToDouble(NearestEven, x)
  {
    hide Pow, Pw, ToDouble, BitsToDouble;
    var j := expn - c * b;
    PwOfPow(2, b, c);
    PwNat(Pow(2, b), c);
    PwAdd(2, c * b, j);
    assert c * b + j == expn && -(-expn) == expn;
    DivideOut(n as real, d as real, Pw(2, j), Pw(2, expn), x);
    StickyAnyOffset(NearestEven, n, d, -expn, n as real / d as real, x);
  }

  lemma DivideOut(n: real, d: real, p: real, q: real, x: real)
    requires d > 0.0 && q == d * p && x == n * p
    ensures x == (n / d) * q
  {
    var y := n / d;
    Reciprocal(d, y, n);
    RMulAssoc(y, d, p);
  }

  lemma OffsetParts(lit: Lit, expn: int, c: int)
    requires lit.Number? && IsPow2Radix(lit.radix)
    requires c == |lit.digits| - LeadingZeros(lit.digits) - |Kept(lit.digits, lit.radix)|
    requires expn == TopBits(lit) - |Kept(lit.digits, lit.radix)| * RadixBits(lit.radix)
    ensures expn - c * RadixBits(lit.radix) == BinaryScale(lit) + RadixScale(lit, |lit.digits|) * RadixBits(lit.radix)
  {
    hide LeadingZeros, RadixBits, Kept;
    var b, z, k := RadixBits(lit.radix), LeadingZeros(lit.digits), |Kept(lit.digits, lit.radix)|;
    var n := |lit.digits|;
    assert (lit.dot - z) * b - k * b - (n - z - k) * b == (lit.dot - n) * b;
    Distribute(lit.dot - n, lit.exponent, b);
  }

  // ----- other radices -----

  /** The kept digits alone give the value that counts. */
  lemma KeptValue(lit: Lit)
    requires WellFormed(lit) && NeedsBracket(lit.radix) && !lit.binary
    ensures ValueOf(lit, Counted(lit))
         == Scaled(Num(Kept(lit.digits, lit.radix), lit.radix), 0, lit.radix,
                   TopExponent(lit) - |Kept(lit.digits, lit.radix)|)
  {
    hide Num, Scaled, LeadingZeros, AtodMaxDigits;
    var ds, r := lit.digits, lit.radix;
    var z, kept := LeadingZeros(ds), Kept(ds, r);
    KeptDigits(r);
    var n := z + |kept|;
    ZerosPrefix(ds, n);
    NumSkipZeros(ds[..n], r);
    assert ds[..n][z..] == kept;
  }

  lemma ZerosPrefix(ds: seq<nat>, n: nat)
    requires LeadingZeros(ds) <= n <= |ds|
    ensures LeadingZeros(ds[..n]) == LeadingZeros(ds)
  {
    hide LeadingZeros;
    ZerosAre(ds[..n], LeadingZeros(ds));
  }

  /** Between the exits the 26-limb number holds every intermediate of mul_pow_round_to_d. */
  lemma RoomToConvert(a: Mpb, v: nat, r: nat, count: nat, f: int)
    requires NeedsBracket(r) && a.Valid() && a.Norm() && a.Value() == v && a.tab.Length == CAPACITY
    requires v < Pow(r, count) && count <= AtodMaxDigits(r)
    requires -(MinExponentNeg(r) as int) < f + count <= MaxExponent(r)
    ensures IsFactor(RadixOdd(r)) && RoomToD(v, a.len, RadixOdd(r), RadixShift(r), f, CAPACITY)
  {
    hide Pow, RadixOdd, RadixShift, AtodMaxDigits, MaxExponent, MinExponentNeg, DownShift, BitLen, Mpb.Value;
    OddIsFactor(r);
    KeptDigits(r);
    ExponentTables(r);
    PowMono(r, count, AtodMaxDigits(r));
    var o := RadixOdd(r);
    if o != 1 && f >= 0 {
      PowMono(r, f, MaxExponent(r));
      PowBaseMono(o, r, f);
      PowPositive(2, 1060);
      MulMono(v, v, Pow(o, f), Pow(2, 1060));
      StrictMul(v, Pow(2, 128), Pow(2, 1060));
      PowAdd(2, 128, 1060);
      CapacityBits(1188, CAPACITY);
    }
    if o != 1 && f < 0 {
      PowMono(r, -f, count + MinExponentNeg(r));
      PowAdd(r, count, MinExponentNeg(r));
      MulMono(Pow(r, count), Pow(2, 128), Pow(r, MinExponentNeg(r)), Pow(2, 1110));
      PowAdd(2, 128, 1110);
      PowBaseMono(o, r, -f);
      DivisionsBound(o, -f, 1238);
      ShortNumber(a);
      DownSmallConvert(o, RadixShift(r), -f, BitLen(v), a.len);
    }
  }

  lemma ShortNumber(a: Mpb)
    requires a.Valid() && a.Norm() && a.Value() < Pow(2, 128)
    ensures a.len <= 3
  {
    hide Pow, Mpb.Value;
    PowBase(2);
    PowUnfold(2, 0);
    a.ZeroForm();
    if a.Value() > 0 { a.LenBound(0, 2); }
  }

  lemma DownSmallConvert(o: nat, t: nat, f: nat, bits: nat, len: nat)
    requires IsFactor(o) && o != 1 && f >= 1 && 58 * (Divisions(o, f) - 1) <= 1238 && len <= 3
    ensures len + (DownShift(o, t, f, false, 55, bits) + 63) / 64 <= CAPACITY
  {
    hide Divisions;
  }

  // ----- from digits and exponent to a pattern -----

  /** The last lines of js_atod: the pattern of a pair. */
  method Pack(m: Limb, e: int, neg: bool) returns (a: nat)
    requires m < TWO53
    ensures a == Encode(neg, (m, e))
  {
    hide Pow, Or;
    if m == 0 {
      a := 0;
    } else if e > 1024 {
      a := 0x7FF * TWO52;
    } else if e < -1073 {
      a := 0;
    } else if e < -1021 {
      PowPositive(2, -e - 1021);
      a := m / Pow(2, -e - 1021);
      QuotientSmall(m, -e - 1021);
    } else {
      Two53();
      OrDisjoint(e + 1022, m % TWO52, 52);
      a := Or(m % TWO52, (e + 1022) * TWO52);
    }
    SignBit();
    if neg {
      OrDisjoint(1, a, 63);
      a := Or(a, SIGN);
    }
  }

  lemma QuotientSmall(m: nat, j: nat)
    requires m < TWO53
    ensures Pow(2, j) > 0 && m / Pow(2, j) < SIGN
  {
    PowPositive(2, j);
  }

  lemma SignBit()
    ensures Pow(2, 63) == SIGN
  {
    SquareIsPow(2, 63);
    assert Square(2, 63) == SIGN;
  }

  // ----- the exact powers of ten -----

  /** The value js_atod_pow10 is scaled with: both operands are exact, so one operation rounds once. */
  method FastScale(m: Limb, k: int) returns (d: (nat, int))
    requires m < TWO53 && -22 <= k <= 22
    ensures d == ToDouble(NearestEven, Scaled(m, 0, 10, k))
  {
    hide Pow, Pw, BitsToDouble, ToDouble, Scaled, OfInt, Product, Quotient;
    SmallExact(m);
    ghost var j: nat := if k >= 0 then k else -k;
    TenExact(j);
    ScaledTen(m, k, j);
    if k >= 0 {
      ProductRounds(OfInt(m), OfInt(Pow(10, k)), Scaled(m, 0, 10, k));
      d := Product(OfInt(m), OfInt(Pow(10, k)));
    } else {
      QuotientRounds(OfInt(m), OfInt(Pow(10, -k)), Scaled(m, 0, 10, k));
      d := Quotient(OfInt(m), OfInt(Pow(10, -k)));
    }
  }

  lemma SmallExact(m: nat)
    requires m < TWO53
    ensures RealOf(OfInt(m)) == m as real
  {
    hide Pw, Pow;
    PowUnfold(2, 0);
    if m > 0 { OfIntExact(m, m, 0); } else { ZeroReal(0); }
  }

  lemma TenExact(k: nat)
    requires k <= 22
    ensures OfInt(Pow(10, k)).0 > 0 && RealOf(OfInt(Pow(10, k))) == Pow(10, k) as real && Pow(10, k) > 0
  {
    hide Pow, OfInt, Real;
    PowMulBase(5, 2, k);
    PowMono(5, k, 22);
    SquareIsPow(5, 22);
    assert Square(5, 22) == 2384185791015625;
    PowPositive(5, k);
    PowPositive(10, k);
    OfIntExact(Pow(10, k), Pow(5, k), k);
  }

  lemma ScaledTen(m: nat, k: int, j: nat)
    requires j == if k >= 0 then k else -k
    ensures k >= 0 ==> Scaled(m, 0, 10, k) == m as real * Pow(10, j) as real
    ensures k < 0 ==> Pow(10, j) > 0 && Scaled(m, 0, 10, k) == m as real / Pow(10, j) as real
  {
    hide Pow, Pw;
    PwNat(10, j);
    TimesOne(m as real, Pw(2, 0));
    if k < 0 {
      PowPositive(10, j);
      PwAdd(10, k, j);
      assert k + j == 0;
      InverseForm(m as real, Pw(10, k), Pow(10, j) as real, Pw(10, 0));
    }
  }

  // ----- the conversion -----

  /** What the digit loops leave for the conversion, `dot` digits standing before the point. */
  ghost predicate Prepared(ds: seq<nat>, dot: nat, r: nat, v: nat, count: nat, off: int, fastOk: bool, fastM: nat)
    requires IsRadix(r)
  {
    var z, kept := LeadingZeros(ds), Kept(ds, r);
    && count == |kept| && off == z + count - dot
    && (fastOk ==> r == 10 && fastM == Num(kept, 10))
    && (!fastOk && !IsPow2Radix(r) ==> v == Num(kept, r))
    && (IsPow2Radix(r) ==>
          z + count <= |ds| && var d := Pow(r, |ds| - z - count); d > 0 && v == Sticky(Num(ds, r), d))
  }

  /** A literal with a non-zero digit, prepared for the conversion. */
  ghost predicate Ready(lit: Lit, v: nat, count: nat, off: int, fastOk: bool, fastM: nat) {
    && WellFormed(lit) && (lit.binary ==> 1 <= RadixBits(lit.radix) <= 4)
    && LeadingZeros(lit.digits) < |lit.digits|
    && Prepared(lit.digits, lit.dot, lit.radix, v, count, off, fastOk, fastM)
  }

  /** The part of js_atod after the exponent, for a literal with a non-zero digit. */
  method Convert(tmp: Mpb, r: nat, neg: bool, expn0: int, binary: bool, count: nat, off: int,
                 fastOk: bool, fastM: Limb, ghost lit: Lit) returns (a: nat)
    requires tmp.Valid() && tmp.Norm() && tmp.tab.Length == CAPACITY
    requires Ready(lit, tmp.Value(), count, off, fastOk, fastM)
    requires lit.neg == neg && lit.radix == r && lit.exponent == expn0 && lit.binary == binary
    modifies tmp, tmp.tab
    ensures tmp.Valid() && a == NearestBits(lit)
  {
    if RadixBits(r) != 0 {
      a := ConvertBinary(tmp, r, neg, expn0, binary, count, off, lit);
    } else {
      a := ConvertOther(tmp, r, neg, expn0, count, off, fastOk, fastM, lit);
    }
  }

  method ConvertBinary(tmp: Mpb, r: nat, neg: bool, expn0: int, binary: bool, count: nat, off: int, ghost lit: Lit)
    returns (a: nat)
    requires tmp.Valid() && tmp.Norm() && tmp.tab.Length == CAPACITY && Ready(lit, tmp.Value(), count, off, false, 0)
    requires lit.neg == neg && lit.radix == r && lit.exponent == expn0 && lit.binary == binary && IsPow2Radix(r)
    modifies tmp, tmp.tab
    ensures tmp.Valid() && a == NearestBits(lit)
  {
    hide Pow, Num, LeadingZeros, Kept, BitsToDouble, ToDouble, ValueOf, RadixBits, Encode, Sticky, Mpb.Value;
    BitExitsAgree(lit);
    var bits := RadixBits(r);
    var expn := if binary then expn0 else expn0 * bits;
    expn := expn - off * bits;
    var expn1 := expn + count * bits;
    TopIs(lit, count, off, bits, expn);
    if expn1 >= 1024 + bits {
      a := Pack(1, 1025, neg);
    } else if expn1 <= -1075 {
      a := Pack(0, 0, neg);
    } else {
      BinaryRounded(lit, tmp.Value(), expn);
      var m, e := RoundToD(tmp, -expn, NearestEven);
      RoundedBelow(ValueOf(lit, |lit.digits|));
      a := Pack(m, e, neg);
    }
  }

  lemma TopIs(lit: Lit, count: nat, off: int, bits: nat, expn: int)
    requires lit.Number? && bits == RadixBits(lit.radix) && off == LeadingZeros(lit.digits) + count - lit.dot
    requires expn == (if lit.binary then lit.exponent else lit.exponent * bits) - off * bits
    ensures expn + count * bits == TopBits(lit)
  {
    hide LeadingZeros, RadixBits;
    assert (lit.dot - LeadingZeros(lit.digits)) * bits == count * bits - off * bits;
  }

  lemma RoundedBelow(x: real)
    requires x >= 0.0
    ensures ToDouble(NearestEven, x).0 < TWO53
  {
    hide ToDouble;
    if x > 0.0 {
      ToDoubleCanonical(NearestEven, x);
    } else {
      assert ToDouble(NearestEven, x) == (0, 0) by { ZeroIs(x); }
    }
  }

  lemma ZeroIs(x: real)
    requires x == 0.0
    ensures ToDouble(NearestEven, x) == (0, 0)
  {}

  method ConvertOther(tmp: Mpb, r: nat, neg: bool, expn0: int, count: nat, off: int, fastOk: bool, fastM: Limb,
                      ghost lit: Lit)
    returns (a: nat)
    requires tmp.Valid() && tmp.Norm() && tmp.tab.Length == CAPACITY
    requires Ready(lit, tmp.Value(), count, off, fastOk, fastM)
    requires lit.neg == neg && lit.radix == r && lit.exponent == expn0 && NeedsBracket(r) && !lit.binary
    modifies tmp, tmp.tab
    ensures tmp.Valid() && a == NearestBits(lit)
  {
    hide Pow, Num, LeadingZeros, Kept, ToDouble, ValueOf, RadixBits, Encode, Mpb.Value, Scaled, RadixOdd, RadixShift;
    hide MaxExponent, MinExponentNeg, AtodMaxDigits, Counted, RoomToD;
    var expn := expn0 - off;
    KeptValue(lit);
    KeptSize(lit);
    if fastOk && fastM < TWO53 && -22 <= expn <= 22 {
      var d := FastScale(fastM, expn);
      a := Encode(neg, d);
      return;
    }
    var expn1 := expn + count;
    ExitsAgree(lit);
    if expn1 >= MaxExponent(r) + 1 {
      a := Pack(1, 1025, neg);
    } else if expn1 <= -(MinExponentNeg(r) as int) {
      a := Pack(0, 0, neg);
    } else {
      if fastOk {
        tmp.SetU64(fastM);
      }
      RadixSplit(r);
      RoomToConvert(tmp, tmp.Value(), r, count, expn);
      var m, e := MulPowRoundToD(tmp, RadixOdd(r), RadixShift(r), expn, NearestEven);
      RoundedBelow(ValueOf(lit, Counted(lit)));
      a := Pack(m, e, neg);
    }
  }

  lemma KeptSize(lit: Lit)
    requires WellFormed(lit) && LeadingZeros(lit.digits) < |lit.digits|
    ensures
      var r, kept := lit.radix, Kept(lit.digits, lit.radix);
      0 < Num(kept, r) < Pow(r, |kept|) && 0 < |kept| <= AtodMaxDigits(r)
  {
    hide Pow, Num, LeadingZeros, AtodMaxDigits;
    KeptDigits(lit.radix);
    var kept := Kept(lit.digits, lit.radix);
    NumBound(kept, lit.radix);
    NumTop(kept, lit.radix);
    PowPositive(lit.radix, |kept| - 1);
  }
}
