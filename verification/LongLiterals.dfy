/** Literals with more digits than js_atod of src/dtoa.c keeps, in a radix that is no power of two. */
module LongLiterals {
  import opened Powers
  import opened Rounding
  import opened Limbs
  import opened Tables
  import opened Doubles
  import opened Nearest
  import opened DoubleBits
  import opened RoundedScaling
  import opened Shortest
  import opened FreeLoop
  import opened Literal
  import opened LiteralValue
  import opened DigitReader
  import opened DigitText
  import opened LayoutReads
  import opened LiteralLaws

  // ----- how far a double reaches up -----

  /** Not past the upper end of the reals that round to a double; the end belongs to it when the mantissa is even. */
  ghost predicate NotPast(w: real, m: nat, e: int)
    requires e >= -1073
  {
    var end := Real(m, e) + HalfUlp(e);
    w < end || (w == end && UnitsOf(m, e) % 2 == 0)
  }

  /** From a number that rounds to a double, a larger one rounds to it as well if and only if it is not past its end. */
  lemma UpToEnd(c: real, w: real, m: nat, e: int)
    requires 0.0 < c <= w && Canonical(m, e) && ToDouble(NearestEven, c) == (m, e)
    ensures e >= -1073 && (ToDouble(NearestEven, w) == (m, e) <==> NotPast(w, m, e))
  {
    hide Pw, ToDouble, Canonical, UnitsOf;
    LowExponent(m, e);
    if Symmetric(m, e) {
      hide Real, HalfUlp;
      IntervalSymmetric(c, m, e);
      IntervalSymmetric(w, m, e);
    } else {
      PowerReal(e);
      PowerEven(e);
      PowerInterval(c, e);
      PowerInterval(w, e);
    }
  }

  lemma LowExponent(m: nat, e: int)
    requires Canonical(m, e)
    ensures e >= -1073
  {}

  lemma PowerReal(e: int)
    requires e >= -1020
    ensures Real(TWO53 / 2, e) == Pw(2, e - 1) && HalfUlp(e) == Pw(2, e - 54)
  {
    hide Pw, Pow;
    Two53();
    PwNat(2, 52);
    PwAdd(2, 52, e - 53);
    assert 52 + (e - 53) == e - 1;
  }

  lemma PowerEven(e: int)
    requires e >= -1020
    ensures UnitsOf(TWO53 / 2, e) % 2 == 0
  {
    assert Pow(2, 0) == 1;
  }

  // ----- cutting digits off -----

  /** A literal cut after some of its digits is not larger. */
  lemma CutBelow(lit: Lit, n: nat)
    requires WellFormed(lit) && n <= |lit.digits|
    ensures ValueOf(lit, n) <= ValueOf(lit, |lit.digits|)
  {
    hide Pw, Pow, Num;
    var ds, r := lit.digits, lit.radix;
    var j, f := |ds| - n, RadixScale(lit, |ds|);
    assert ds[..|ds|] == ds && ds == ds[..n] + ds[n..];
    NumConcat(ds[..n], ds[n..], r);
    var v, whole := Num(ds[..n], r), Num(ds, r);
    PwNat(r, j);
    PwAdd(r, j, f);
    assert j + f == RadixScale(lit, n);
    CastProduct(v, Pow(r, j), Pw(r, j));
    MovePower(v as real, Pw(2, BinaryScale(lit)), Pw(r, j), Pw(r, f), (v * Pow(r, j)) as real, Pw(r, j + f));
    LargerNumber((v * Pow(r, j)) as real, whole as real, Pw(2, BinaryScale(lit)), Pw(r, f));
  }

  lemma LargerNumber(a: real, b: real, p: real, q: real)
    requires a <= b && p > 0.0 && q > 0.0
    ensures (a * p) * q <= (b * p) * q
  {
    RMulMono(a, b, p);
    RMulMono(a * p, b * p, q);
  }

  lemma SamePattern(neg: bool, m: nat, e: int, d: (nat, int))
    requires Canonical(m, e) && e <= 1024 && Canonical(d.0, d.1)
    ensures Encode(neg, (m, e)) == Encode(neg, d) <==> (m, e) == d
  {
    hide Encode, Decode, Canonical;
    DecodeEncode(neg, m, e);
    if d.1 <= 1024 {
      DecodeEncode(neg, d.0, d.1);
    } else {
      PastFinite(neg, d);
    }
  }

  lemma PastFinite(neg: bool, d: (nat, int))
    requires Canonical(d.0, d.1) && d.1 > 1024
    ensures Encode(neg, d) < BASE && Decode(Encode(neg, d)) == NotFinite
  {
    var a := Encode(neg, d);
    assert a == INF || a == INF + SIGN;
  }

  // ----- zero and infinity -----

  /** The least double that is not zero. */
  lemma LeastDouble()
    ensures Canonical(TWO53 / 2, -1073) && Symmetric(TWO53 / 2, -1073) && UnitsOf(TWO53 / 2, -1073) == 1
    ensures Real(TWO53 / 2, -1073) == Pw(2, -1074) && HalfUlp(-1073) == Pw(2, -1075)
  {
    hide Pw;
    Two53();
    PwNat(2, 52);
    PwAdd(2, 52, -1126);
  }

  /** A number rounds to zero if and only if it is at most half the least double. */
  lemma RoundsToZero(w: real)
    requires w > 0.0
    ensures ToDouble(NearestEven, w).0 == 0 <==> w <= Pw(2, -1075)
  {
    hide Pw, ToDouble, Real, HalfUlp, UnitsOf, Canonical;
    var (m, e) := ToDouble(NearestEven, w);
    LeastDouble();
    PwSucc(2, -1075);
    ToDoubleCanonical(NearestEven, w);
    IntervalSymmetric(w, TWO53 / 2, -1073);
    IntervalSymmetric(Pw(2, -1074), TWO53 / 2, -1073);
    SameValue(NearestEven, w, TWO53 / 2, -1073);
    if w >= Pw(2, -1074) {
      RoundedMono(NearestEven, Pw(2, -1074), w);
      if m == 0 { ZeroReal(e); }
    } else if m > 0 {
      RoundedMono(NearestEven, w, Pw(2, -1074));
      CanonicalExp(m, e);
      LowExponent(m, e);
      PwMono(2, -1074, e - 1);
    }
  }

  /** Past the finite doubles a larger number stays past them. */
  lemma StaysInfinite(neg: bool, m: nat, e: int, d: (nat, int))
    requires Canonical(m, e) && e > 1024 && Canonical(d.0, d.1) && Real(m, e) <= Real(d.0, d.1)
    ensures Encode(neg, d) == Encode(neg, (m, e))
  {
    hide Pw, Real;
    CanonicalExp(m, e);
    CanonicalExp(d.0, d.1);
    if d.1 <= 1024 { PwMono(2, d.1, e - 1); }
  }

  /** The digits that are not kept leave the result as it is: told from the whole number and the double returned. */
  ghost predicate Harmless(whole: real, d: (nat, int)) {
    if d.0 == 0 then whole <= Pw(2, -1075)
    else d.1 > 1024 || (d.1 >= -1073 && NotPast(whole, d.0, d.1))
  }

  /**
    * js_atod returns the double nearest to the whole literal if and only if the digits it does not keep do not take the
    * number past the upper end of the double it returns, if that is finite.
    */
  lemma NearestToWhole(lit: Lit)
    requires WellFormed(lit)
    ensures
      var whole, read := ValueOf(lit, |lit.digits|), ToDouble(NearestEven, ValueOf(lit, Counted(lit)));
      NearestBits(lit) == Encode(lit.neg, ToDouble(NearestEven, whole)) <==> Harmless(whole, read)
  {
    hide ValueOf, Counted, ToDouble, Encode, Canonical, NotPast, Pw, Real;
    var c, w := ValueOf(lit, Counted(lit)), ValueOf(lit, |lit.digits|);
    CutBelow(lit, Counted(lit));
    var (m, e) := ToDouble(NearestEven, c);
    ToDoubleZero();
    if w == 0.0 {
      NoHarm();
    } else {
      ToDoubleCanonical(NearestEven, w);
      RoundsToZero(w);
      if m == 0 {
        ZeroPatterns(lit.neg, e, ToDouble(NearestEven, w));
      } else {
        ToDoubleCanonical(NearestEven, c);
        RoundedMono(NearestEven, c, w);
        NotZero(m, e, ToDouble(NearestEven, w));
        if e > 1024 {
          StaysInfinite(lit.neg, m, e, ToDouble(NearestEven, w));
        } else {
          UpToEnd(c, w, m, e);
          SamePattern(lit.neg, m, e, ToDouble(NearestEven, w));
        }
      }
    }
  }

  lemma NoHarm()
    ensures 0.0 <= Pw(2, -1075)
  {}

  lemma ZeroPatterns(neg: bool, e: int, d: (nat, int))
    requires d.0 > 0 ==> Canonical(d.0, d.1)
    ensures Encode(neg, (0, e)) == Encode(neg, d) <==> d.0 == 0
  {
    hide Encode, Canonical, Decode;
    ZeroEncodes(neg, e);
    DecodeEncode(neg, 0, 0);
    if d.0 == 0 {
      ZeroEncodes(neg, d.1);
    } else if d.1 <= 1024 {
      DecodeEncode(neg, d.0, d.1);
    } else {
      PastFinite(neg, d);
    }
  }

  lemma ZeroEncodes(neg: bool, e: int)
    ensures Encode(neg, (0, e)) == Encode(neg, (0, 0))
  {}

  lemma NotZero(m: nat, e: int, d: (nat, int))
    requires Canonical(m, e) && Real(m, e) <= Real(d.0, d.1)
    ensures d.0 > 0
  {
    hide Real, Canonical;
    CanonicalExp(m, e);
    if d.0 == 0 { ZeroReal(d.1); }
  }

  // ----- one digit too many -----

  /** 2^53 + 1, half-way between two doubles. */
  const HALFWAY: nat := 0x20_0000_0000_0001

  /** 2^53 + 1, 22 zeros behind the point and a 1: the last digit is the 39th. */
  ghost predicate Long(m: Mantissa) {
    && m.Valid(10) && m.point && |m.whole| == 16 && m.whole[0] != 0 && Num(m.whole, 10) == HALFWAY
    && |m.fraction| == 23 && m.fraction[22] == 1 && forall i :: 0 <= i < 22 ==> m.fraction[i] == 0
  }

  /** The digits kept make the half-way number, all of them make more. */
  lemma LongValues(lit: Lit, m: Mantissa)
    requires Long(m) && lit == Number(false, 10, m.Digits(), 16, 0, false, lit.end)
    ensures Counted(lit) == 38 && |lit.digits| == 39 && AreDigits(lit.digits, 10)
    ensures ValueOf(lit, 38) == HALFWAY as real && ValueOf(lit, 39) > HALFWAY as real
  {
    hide Pow, Pw, Num, LeadingZeros, AtodMaxDigits, Scaled, Shifted;
    var a, z, n := m.whole, m.fraction[..22], HALFWAY;
    FirstNotZero(lit.digits);
    KeptTen();
    CountedIs(lit);
    assert m.fraction == z + [1];
    assert lit.digits == a + z + [1];
    assert lit.digits[..38] == a + z && lit.digits[..39] == (a + z) + [1];
    NumConcat(a, z, 10);
    NumZeros(z, 10);
    NumAppend(a + z, 1, 10);
    LongScaled(n, Pow(10, 22));
  }

  lemma FirstNotZero(ds: seq<nat>)
    requires ds != [] && ds[0] != 0
    ensures LeadingZeros(ds) == 0
  {}

  lemma LongScaled(n: nat, p: nat)
    requires p == Pow(10, 22)
    ensures Scaled(n * p, 0, 10, -22) == n as real && Scaled(n * p * 10 + 1, 0, 10, -23) > n as real
  {
    hide Pow, Pw, Scaled, Shifted;
    ScaledInt(n * p, 10, -22);
    FinerGrid(n, 10, 0, -22);
    ShiftZero(n as real, 10);
    PowUnfold(10, 22);
    ScaledInt(n * p * 10 + 1, 10, -23);
    FinerGrid(n, 10, 0, -23);
    assert n * (10 * p) == n * p * 10;
    ShiftMono((n * p * 10) as real, (n * p * 10 + 1) as real, 10, -23);
  }

  lemma HalfwayRounds()
    ensures ToDouble(NearestEven, HALFWAY as real) == (TWO53 / 2, 54)
    ensures Real(TWO53 / 2, 54) + HalfUlp(54) == HALFWAY as real
  {
    hide Pw, Pow, ToDouble, Real, HalfUlp;
    PowerReal(54);
    PwNat(2, 53);
    Two53();
    PowerInterval(HALFWAY as real, 54);
    assert Pw(2, 0) == 1.0 by { PwNat(2, 0); PowUnfold(2, 0); }
  }

  /** There is such a literal. */
  lemma LongExists(n: nat) returns (m: Mantissa)
    requires n == HALFWAY
    ensures Long(m)
  {
    hide Pow, Length, Num, DigitsOf;
    var ds := Plain(n, 10);
    PlainNum(n, 10);
    TenPowers();
    assert Pow(10, 15) == 1000000000000000 by { Fifteen(); }
    LengthUnique(n, 10, 16);
    if ds[0] == 0 {
      assert ds == [0] + ds[1..];
      NumConcat([0], ds[1..], 10);
      NumZeros([0], 10);
      NumBound(ds[1..], 10);
    }
    m := Mantissa(ds, true, seq(22, i => 0) + [1]);
  }

  lemma Fifteen()
    ensures Pow(10, 15) == 1000000000000000
  {
    hide Pow;
    SquareIsPow(10, 15);
    assert Square(10, 15) == 1000000000000000;
  }

  /** A literal of 39 digits that is read as 2^53, although 2^53 + 2 is nearer. */
  lemma OneDigitTooMany(m: Mantissa)
    requires Long(m)
    ensures
      var lit := Parse(m.Text(), 10, false, false);
      && WellFormed(lit) && lit.end == |m.Text()| && NearestBits(lit) == Encode(false, (TWO53 / 2, 54))
      && NearestBits(lit) != Encode(false, ToDouble(NearestEven, ValueOf(lit, |lit.digits|)))
  {
    hide Parse, ToDouble, Encode, ValueOf, Counted, Mantissa.Text, LeadingZeros, Num;
    LongForm(m);
    NumberReads("", m, "", 10, false, false);
    assert "" + (m.Text() + "") == m.Text();
    var lit := Parse(m.Text(), 10, false, false);
    LongValues(lit, m);
    HalfwayRounds();
    NearestToWhole(lit);
    PowerCanonical(54);
  }

  lemma LongForm(m: Mantissa)
    requires Long(m)
    ensures !IsMark('\0', 10) && ToDigit('\0') == 36 && NoPrefix(m.Text() + "", 10, false)
  {
    hide Num, Chars;
    TextParts(m);
    assert m.Text() + "" == m.Text();
    assert m.Text()[0] == DigitChar(m.whole[0]);
  }
}
