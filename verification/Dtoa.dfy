/** js_dtoa of src/dtoa.c in its free format, from the bit pattern to the text, and the round trip through js_atod. */
module Dtoa {
  import opened Powers
  import opened Rounding
  import opened Limbs
  import opened MpbModel
  import opened Tables
  import opened Doubles
  import opened Nearest
  import opened DoubleBits
  import opened RoundedScaling
  import opened Shortest
  import opened FreeLoop
  import opened Estimates
  import opened PowTwo
  import opened PowerDigits
  import opened LogTables
  import opened Grisu
  import opened Literal
  import opened LiteralValue
  import opened DigitText
  import opened Layout
  import opened LayoutReads
  import opened NumberText
  import opened Atod
  import opened LiteralLaws

  /** Digits that read back as the double, without a leading zero, few enough for the reader to keep them all. */
  ghost predicate Printable(d: Decimal, r: nat, m: nat, e: int)
    requires IsRadix(r)
  {
    && ReadsBack(d, r, m, e) && 1 <= d.digits <= DtoaMaxDigits(r) && 0 < d.mant
    && Pow(r, d.digits - 1) <= d.mant < Pow(r, d.digits) && -1100 <= d.exp <= 1100
  }

  /** No decimal with as many digits that reads back is closer to the double. */
  ghost predicate NoneCloser(d: Decimal, r: nat, m: nat, e: int)
    requires IsRadix(r)
  {
    forall w: Decimal :: 1 <= w.digits == d.digits && w.mant < Pow(r, w.digits) && ReadsBack(w, r, m, e) ==>
      Abs(DecValue(d, r) - Real(m, e)) <= Abs(DecValue(w, r) - Real(m, e))
  }

  /**
    * As good as the printer promises: the closest digits of their number, and the fewest but for powers of two that
    * are left to the loop in a radix that is no power of two.
    */
  ghost predicate AsShort(d: Decimal, r: nat, m: nat, e: int, mode: ExpMode)
    requires IsRadix(r)
  {
    && d.mant % r != 0 && NoneCloser(d, r, m, e)
    && (Symmetric(m, e) || IsPow2Radix(r) || (r == 10 && !mode.Disabled?) ==> Fewest(d, r, m, e))
  }

  /** The dispatch of js_dtoa between the power-of-two search, the 128-bit fast path and the exact loop. */
  method FreeFormat(tmp: Mpb, table: seq<Entry>, m: Limb, e: int, r: nat, mode: ExpMode)
    returns (mant: Limb, p: nat, k: int)
    requires tmp.Valid() && tmp.tab.Length == CAPACITY && AccurateTable(table)
    requires Canonical(m, e) && e <= 1024 && IsRadix(r)
    modifies tmp, tmp.tab
    ensures tmp.Valid()
    ensures Printable(Decimal(mant, p, k), r, m, e) && AsShort(Decimal(mant, p, k), r, m, e, mode)
    ensures !(r == 10 && m == TWO53 / 2 && e >= -1021 && !mode.Disabled?) ==> Decimal(mant, p, k) == LoopDigits(m, e, r)
  {
    hide Pow, Canonical, Estimate, AccurateTable, ReadsBack, DtoaMaxDigits, Good, ShortestDigits;
    hide Mpb.Value, Free, MulLog2Radix;
    hide NoneCloser, Fewest, ShortestPower;
    assert e >= -1073 by { CanonicalLow(m, e); }
    EstimateExact(e, r);
    var e0 := 1 + MulLog2Radix(e - 1, r);
    DtoaTable(r);
    FreeShortest(m, e, r, e0, DtoaMaxDigits(r));
    ShortMeans(Free(m, e, r, e0, DtoaMaxDigits(r)), r, m, e);
    FreeExp(m, e, r, e0, DtoaMaxDigits(r));
    FreeLeading(m, e, r, e0, DtoaMaxDigits(r));
    EstimateBounds(e, r, e0);
    var power := m == TWO53 / 2 && e >= -1021;
    SeventeenTen();
    if IsPow2Radix(r) { Pow2Shortest(m, e, r); }
    if r == 10 && power && !mode.Disabled? {
      var found;
      found, mant, p, k := ShortestPow2(tmp, m, e, e0);
      PowerMeans(Decimal(mant, p, k), m, e);
      FewestLeading(Decimal(mant, p, k), 10, m, e);
      return;
    }
    if r == 10 && !power && !mode.Disabled? {
      var ok;
      ok, mant, p, k := ShortestFast(table, m, e, e0);
      if ok {
        return;
      }
    }
    mant, p, k := FreeDigits(tmp, m, e, r, e0);
  }

  /**
    * In every radix that is no power of two, in decimal when exponents are disabled, there is a power of two for
    * which the printer uses more digits than it takes. Otherwise FreeFormat always gives the fewest.
    */
  method PrintsTooLong(table: seq<Entry>, r: nat, mode: ExpMode) returns (mant: Limb, p: nat, k: int, ghost w: Decimal)
    requires AccurateTable(table) && NeedsBracket(r) && (r == 10 ==> mode.Disabled?)
    ensures Printable(Decimal(mant, p, k), r, TWO53 / 2, LongPower(r) + 1)
    ensures 1 <= w.digits < p && w.mant < Pow(r, w.digits) && ReadsBack(w, r, TWO53 / 2, LongPower(r) + 1)
  {
    hide Pow, Canonical, AccurateTable, ReadsBack, DtoaMaxDigits, LoopDigits, LongPower, Printable, AsShort;
    var tmp := new Mpb(CAPACITY);
    ghost var e;
    e, w := LoopTooLong(r);
    PowerCanonical(LongPower(r) + 1);
    mant, p, k := FreeFormat(tmp, table, TWO53 / 2, LongPower(r) + 1, r, mode);
  }

  lemma CanonicalLow(m: nat, e: int)
    requires Canonical(m, e)
    ensures e >= -1073
  {}

  lemma EstimateBounds(e: int, r: nat, e0: int)
    requires IsRadix(r) && -1073 <= e <= 1024 && Estimate(r, e, e0)
    ensures -1080 <= e0 <= 1080
  {
    hide Pw, Pow;
    if e0 > 1080 {
      PwMono(r, 1024, e0 - 1);
      PwNat(r, 1024);
      PwNat(2, 1024);
      PowBaseMono(2, r, 1024);
      PwStrict(2, e - 1, 1024);
    }
    if e0 < -1080 {
      PwMono(r, e0, -1080);
      PowBaseMono(2, r, 1080);
      InverseAtMost(r, 1080, 1080);
      PwMono(2, -1080, e - 1);
    }
  }

  lemma SeventeenTen()
    ensures DtoaMaxDigits(10) == 17
  {}

  lemma ShortMeans(d: Decimal, r: nat, m: nat, e: int)
    requires IsRadix(r) && Good(d, r, m, e)
    ensures ReadsBack(d, r, m, e) && d.digits >= 1 && 0 < d.mant < Pow(r, d.digits) && d.mant % r != 0
    ensures NoneCloser(d, r, m, e) && (ShortestDigits(d, r, m, e) ==> Fewest(d, r, m, e))
  {}

  lemma PowerMeans(d: Decimal, m: nat, e: int)
    requires ShortestPower(d, m, e)
    ensures ReadsBack(d, 10, m, e) && 1 <= d.digits <= 17 && 0 < d.mant < Pow(10, d.digits) && d.mant % 10 != 0
    ensures NoneCloser(d, 10, m, e) && Fewest(d, 10, m, e)
  {}

  /** The fewest digits have no leading zero. */
  lemma FewestLeading(d: Decimal, r: nat, m: nat, e: int)
    requires IsRadix(r) && d.digits >= 1 && 0 < d.mant && ReadsBack(d, r, m, e) && Fewest(d, r, m, e)
    ensures Pow(r, d.digits - 1) <= d.mant
  {
    hide Pow, ToDouble, Shifted;
    PowUnfold(r, 0);
    if d.digits > 1 && d.mant < Pow(r, d.digits - 1) {
      var w := Decimal(d.mant, d.digits - 1, d.exp - 1);
      ReadsSame(d, w, r, m, e);
    }
  }

  lemma ReadsSame(d: Decimal, w: Decimal, r: nat, m: nat, e: int)
    requires r >= 1 && d.mant == w.mant && d.exp - d.digits == w.exp - w.digits && ReadsBack(d, r, m, e)
    ensures ReadsBack(w, r, m, e)
  {}

  // ----- reading back -----

  /** The reader keeps at least the digits the printer writes. */
  lemma ReaderKeeps(r: nat)
    requires IsRadix(r) && !IsPow2Radix(r)
    ensures DtoaMaxDigits(r) <= AtodMaxDigits(r)
  {}

  /** Laid-out digits that read back give the pattern they came from. */
  lemma TextReads(neg: bool, d: Decimal, r: nat, m: nat, e: int, mode: ExpMode, binOct: bool)
    requires IsRadix(r) && Printable(d, r, m, e)
    ensures
      var s := (if neg then "-" else "") + Laid(DigitsOf(d.mant, r, d.digits), d.exp, r, mode);
      var lit := Parse(s, r, false, binOct);
      && lit.Number? && lit.radix == r && lit.end == |s| && FitsCounters(s, lit)
      && NearestBits(lit) == Encode(neg, (m, e))
      && ExponentLaw(s, ValueOf(lit, Counted(lit)), r, mode)
  {
    hide Pow, Num, Laid, Parse, DigitsOf, ToDouble, ValueOf, Counted, Shifted, Encode, DtoaMaxDigits, AtodMaxDigits;
    hide ExponentLaw;
    var ds := DigitsOf(d.mant, r, d.digits);
    LaidParses(neg, ds, d.exp, r, mode, binOct);
    var s := (if neg then "-" else "") + Laid(ds, d.exp, r, mode);
    DigitsOfNum(d.mant, r, d.digits);
    DivModUnique(d.mant, Pow(r, d.digits), 0, d.mant);
    if !IsPow2Radix(r) { ReaderKeeps(r); }
    LaidValue(neg, ds, d.exp, r, mode, |s|);
    LaidShape(neg, ds, d.exp, r, mode, |s|);
    MarkLaw(neg, d.mant, d.digits, d.exp, r, mode);
  }

  lemma LaidShape(neg: bool, ds: seq<nat>, k: int, r: nat, mode: ExpMode, end: nat)
    requires IsRadix(r)
    ensures
      var lit := LaidLit(neg, ds, k, r, mode, end);
      && lit.Number? && lit.radix == r && lit.end == end && lit.neg == neg
      && (-1100 <= k <= 1100 ==> -5000 <= lit.exponent <= 5000)
  {
    hide Padded, DtoaMaxDigits;
  }

  /** An integer written plainly is laid out from the fewest digits that read back, which stand for it exactly. */
  lemma IntegerPrintable(n: nat, r: nat, m: nat, e: int, mode: ExpMode)
    requires IsRadix(r) && 0 < n < TWO53 && Canonical(m, e) && Real(m, e) == n as real && !mode.Enabled?
    ensures
      var d := Significant(n, r);
      && Printable(d, r, m, e) && AsShort(d, r, m, e, mode)
      && Laid(DigitsOf(d.mant, r, d.digits), d.exp, r, mode) == Chars(Plain(n, r))
  {
    hide Pow, ToDouble, Laid, Plain, Significant, DigitsOf, DecValue, DtoaMaxDigits, Canonical, Real, Length, Fewest;
    SignificantForm(n, r);
    PlainIsLaid(n, r, mode);
    PlainShort(n, r);
    IntegerItself(n, m, e);
    IntegerFewest(n, r, m, e);
    DtoaTable(r);
    PowPositive(r, Significant(n, r).digits - 1);
  }

  // ----- the whole printer -----

  /** The pattern the text stands for: the pattern printed, but for a negative zero printed without its sign. */
  function Meant(a: nat, minusZero: bool): (b: nat) {
    if a == SIGN && !minusZero then 0 else a
  }

  /** The value of an integral double, in the fast integer path. */
  lemma IntegralValue(m: nat, e: int)
    requires Canonical(m, e) && 1 <= e <= 53 && Pow(2, 53 - e) > 0 && m % Pow(2, 53 - e) == 0
    ensures 0 < m / Pow(2, 53 - e) < TWO53 && Real(m, e) == (m / Pow(2, 53 - e)) as real
  {
    hide Pow, Pw;
    var p := Pow(2, 53 - e);
    var n := m / p;
    assert m == n * p;
    MulMono(n, n, 1, p);
    PwNat(2, 53 - e);
    PwAdd(2, 53 - e, e - 53);
    assert 53 - e + (e - 53) == 0;
    CastProduct(n, p, Pw(2, 53 - e));
    RMulAssoc(n as real, Pw(2, 53 - e), Pw(2, e - 53));
    TimesOne(n as real, Pw(2, 0));
  }

  /** An integral double below 2^53. */
  predicate Integral(m: nat, e: int) {
    1 <= e <= 53 && (PowPositive(2, 53 - e); m % Pow(2, 53 - e) == 0)
  }

  /**
    * What is written for a double that is not zero: digits that read back, laid out in the exponent mode. An integer
    * below 2^53 stands there with all its digits unless the exponent is enabled.
    */
  ghost predicate FreeText(t: string, neg: bool, m: nat, e: int, r: nat, mode: ExpMode)
    requires IsRadix(r)
  {
    var sign := if neg then "-" else "";
    && (exists d: Decimal :: Printable(d, r, m, e) && AsShort(d, r, m, e, mode)
          && t == sign + Laid(DigitsOf(d.mant, r, d.digits), d.exp, r, mode))
    && (Integral(m, e) && !mode.Enabled? ==>
          exists n: nat :: n as real == Real(m, e) && t == sign + Chars(Plain(n, r)))
  }

  /**
    * Number::toString of ECMA-262 in radix 10: the text of the fewest digits that read back, and among those of the
    * closest.
    */
  ghost predicate EcmaToString(t: string, neg: bool, m: nat, e: int) {
    exists d: Decimal :: Printable(d, 10, m, e) && Fewest(d, 10, m, e) && NoneCloser(d, 10, m, e)
      && t == (if neg then "-" else "") + EcmaText(DigitsOf(d.mant, 10, d.digits), d.exp)
  }

  lemma FreeIsEcma(t: string, neg: bool, m: nat, e: int)
    requires FreeText(t, neg, m, e, 10, Auto)
    ensures EcmaToString(t, neg, m, e)
  {
    hide Laid, EcmaText, DigitsOf, Fewest, NoneCloser, ReadsBack, DtoaMaxDigits, Pow, Symmetric, Chars, Integral;
    var d: Decimal :| Printable(d, 10, m, e) && AsShort(d, 10, m, e, Auto)
          && t == (if neg then "-" else "") + Laid(DigitsOf(d.mant, 10, d.digits), d.exp, 10, Auto);
    LaidIsEcma(DigitsOf(d.mant, 10, d.digits), d.exp);
  }

  /**
    * js_dtoa in the free format. Whatever the radix and the exponent mode, reading the text returns the double
    * that was printed, and consumes the whole text.
    */
  method Print(table: seq<Entry>, a: Limb, r: nat, mode: ExpMode, minusZero: bool, ghost binOct: bool)
    returns (t: string)
    requires AccurateTable(table) && IsRadix(r)
    ensures Decode(a).Finite? ==>
      var lit := Parse(t, r, false, binOct);
      lit.Number? && lit.radix == r && lit.end == |t| && NearestBits(lit) == Meant(a, minusZero) && FitsCounters(t, lit)
    ensures Decode(a).Finite? && Decode(a).m == 0 ==>
      t == (if Decode(a).neg && minusZero then "-" else "") + if mode.Enabled? then "0" + [Mark(r)] + "+0" else "0"
    ensures Decode(a).Finite? && Decode(a).m != 0 ==>
      var lit := Parse(t, r, false, binOct);
      && FreeText(t, Decode(a).neg, Decode(a).m, Decode(a).e, r, mode)
      && ExponentLaw(t, ValueOf(lit, Counted(lit)), r, mode)
      && (r == 10 && mode.Auto? ==> EcmaToString(t, Decode(a).neg, Decode(a).m, Decode(a).e))
    ensures !Decode(a).Finite? ==> t == if a % TWO52 != 0 then "NaN" else if a >= SIGN then "-Infinity" else "Infinity"
  {
    hide Pow, Canonical, AccurateTable, Decode, Parse, NearestBits, Encode, Laid, Mpb.Value;
    hide BitLen, DigitsOf, DtoaMaxDigits, FreeText, ExponentLaw, EcmaToString, ValueOf, Counted;
    DecodeForm(a);
    match Decode(a) {
      case NotFinite =>
        t := if a % TWO52 != 0 then "NaN" else if a / SIGN == 1 then "-Infinity" else "Infinity";
      case Finite(neg, m, e) =>
        EncodeDecode(a);
        var tmp := new Mpb(CAPACITY);
        var sign := if neg then "-" else "";
        if m == 0 {
          t := Output(tmp, r, 1, 1, mode);
          ZeroText(neg && minusZero, r, mode, binOct);
          ZeroPattern(a, neg, minusZero);
          ZeroLaid(r, mode);
          t := (if neg && minusZero then "-" else "") + t;
        } else {
          NonZeroPattern(a, neg, m, e);
          t := PrintNonZero(tmp, table, m, e, r, mode, neg, binOct);
        }
    }
  }

  lemma ZeroLaid(r: nat, mode: ExpMode)
    requires IsRadix(r)
    ensures Laid(DigitsOf(0, r, 1), 1, r, mode) == if mode.Enabled? then "0" + [Mark(r)] + "+0" else "0"
  {
    hide DtoaMaxDigits, DigitsOf, Chars, Signed, Written, Padded, Mark, Zeros;
    ZeroDigit(r);
    ZeroExponent(r);
    DtoaTable(r);
    assert PutDot([0], 1) == "0";
    if !mode.Enabled? { assert Padded([0], 1) == [0] by { OneDigitPadded(); } }
  }

  lemma OneDigitPadded()
    ensures Padded([0], 1) == [0]
  {}

  lemma ZeroDigit(r: nat)
    requires r >= 1
    ensures DigitsOf(0, r, 1) == [0] && Chars([0]) == "0"
  {
    assert DigitsOf(0, r, 0) == [];
  }

  lemma ZeroExponent(r: nat)
    ensures Signed(Written(1, r)) == "+0"
  {
    SmallPlain(0);
    assert Written(1, r) == 0;
    ZeroDigit(10);
  }

  lemma DecodeForm(a: nat)
    requires a < BASE
    ensures Decode(a).Finite? ==> Decode(a).m < TWO53 && (Decode(a).m == 0 ==> Decode(a).e == 0)
  {
    hide Pow, BitLen, Encode;
    if Decode(a).Finite? { EncodeDecode(a); }
  }

  lemma ZeroPattern(a: nat, neg: bool, minusZero: bool)
    requires a == Encode(neg, (0, 0))
    ensures Meant(a, minusZero) == Encode(neg && minusZero, (0, 0))
  {}

  lemma NonZeroPattern(a: nat, neg: bool, m: nat, e: int)
    requires a < BASE && Decode(a) == Finite(neg, m, e) && m > 0
    ensures Meant(a, true) == Meant(a, false)
  {
    hide Pow, BitLen;
    if a == SIGN { DecodeFields(a, 1, 0, 0); }
  }

  /** Zero is laid out as a single digit. */
  lemma ZeroText(neg: bool, r: nat, mode: ExpMode, binOct: bool)
    requires IsRadix(r)
    ensures
      var s := (if neg then "-" else "") + Laid(DigitsOf(0, r, 1), 1, r, mode);
      var lit := Parse(s, r, false, binOct);
      lit.Number? && lit.radix == r && lit.end == |s| && NearestBits(lit) == Encode(neg, (0, 0)) && FitsCounters(s, lit)
  {
    hide Pow, Num, Laid, Parse, DigitsOf, ToDouble, ValueOf, Counted, Encode, AtodMaxDigits;
    var ds := DigitsOf(0, r, 1);
    LaidParses(neg, ds, 1, r, mode, binOct);
    var s := (if neg then "-" else "") + Laid(ds, 1, r, mode);
    DigitsOfNum(0, r, 1);
    assert Num(ds, r) == 0;
    KeptDigits(r);
    LaidValue(neg, ds, 1, r, mode, |s|);
    LaidShape(neg, ds, 1, r, mode, |s|);
    var lit := LaidLit(neg, ds, 1, r, mode, |s|);
    ZeroToDouble(ValueOf(lit, Counted(lit)));
  }

  lemma ZeroToDouble(x: real)
    requires x == 0.0
    ensures ToDouble(NearestEven, x) == (0, 0)
  {}

  method PrintNonZero(tmp: Mpb, table: seq<Entry>, m: Limb, e: int, r: nat, mode: ExpMode, neg: bool,
                      ghost binOct: bool)
    returns (t: string)
    requires tmp.Valid() && tmp.tab.Length == CAPACITY && AccurateTable(table)
    requires Canonical(m, e) && e <= 1024 && IsRadix(r)
    modifies tmp, tmp.tab
    ensures
      var lit := Parse(t, r, false, binOct);
      && lit.Number? && lit.radix == r && lit.end == |t| && FitsCounters(t, lit)
      && NearestBits(lit) == Encode(neg, (m, e))
      && ExponentLaw(t, ValueOf(lit, Counted(lit)), r, mode)
    ensures FreeText(t, neg, m, e, r, mode)
    ensures r == 10 && mode.Auto? ==> EcmaToString(t, neg, m, e)
  {
    hide Pow, Canonical, AccurateTable, Parse, NearestBits, Encode, Laid, Mpb.Value, DigitsOf, DtoaMaxDigits, Chars;
    hide Printable, AsShort, Significant, ExponentLaw, EcmaToString, ValueOf, Counted;
    var sign := if neg then "-" else "";
    if Integral(m, e) && !mode.Enabled? {
      PowPositive(2, 53 - e);
      IntegralValue(m, e);
      var n := m / Pow(2, 53 - e);
      IntegerPrintable(n, r, m, e, mode);
      TextReads(neg, Significant(n, r), r, m, e, mode, binOct);
      t := U64toaRadix(n, r);
      t := sign + t;
    } else {
      var mant, p, k := FreeFormat(tmp, table, m, e, r, mode);
      TextReads(neg, Decimal(mant, p, k), r, m, e, mode, binOct);
      PrintableForm(Decimal(mant, p, k), r, m, e);
      tmp.SetU64(mant);
      t := Output(tmp, r, p, k, mode);
      t := sign + t;
    }
    if r == 10 && mode.Auto? { FreeIsEcma(t, neg, m, e); }
  }

  lemma PrintableForm(d: Decimal, r: nat, m: nat, e: int)
    requires IsRadix(r) && Printable(d, r, m, e)
    ensures d.digits >= 1
  {}

  // ----- through both -----

  /** The texts of the two infinities are read as them. */
  lemma InfinityText(neg: bool, r: nat, binOct: bool)
    requires IsRadix(r)
    ensures
      var s := if neg then "-Infinity" else "Infinity";
      var lit := Parse(s, r, false, binOct);
      lit == Infinite(neg, |s|) && NearestBits(lit) == INF + (if neg then SIGN else 0) && FitsCounters(s, lit)
  {
    hide Parse;
    InfinityReads(if neg then "-" else "", "", r, binOct);
    assert "-" + ("Infinity" + "") == "-Infinity" && "" + ("Infinity" + "") == "Infinity";
  }

  /** The text of a NaN is refused up to radix 23; in a larger radix its letters are digits. */
  lemma NaNText(r: nat, binOct: bool)
    requires IsRadix(r)
    ensures
      var lit := Parse("NaN", r, false, binOct);
      && (r <= 23 ==> lit == Fail(0) && NearestBits(lit) == NAN)
      && (r >= 24 ==>
            && lit.Number? && IsRadix(lit.radix) && lit.end == 3
            && NearestBits(lit) == Encode(false, ToDouble(NearestEven, (23 * r * r + 10 * r + 23) as real)))
      && FitsCounters("NaN", lit)
  {
    hide Parse, Encode, ToDouble, Meaning, NearestBits;
    if r <= 23 {
      NotInfinity("NaN");
      NothingReads("", "NaN", r, false, binOct);
      assert "" + "NaN" == "NaN";
      FailNaN();
    } else {
      NaNDigits(r, binOct);
      var m := Mantissa([23, 10, 23], false, []);
      KeptDigits(r);
      NearestRead(Parse("NaN", r, false, binOct), m);
      NaNMeaning(r);
    }
  }

  lemma FailNaN()
    ensures NearestBits(Fail(0)) == NAN
  {}

  lemma NaNDigits(r: nat, binOct: bool)
    requires 24 <= r <= 36
    ensures Parse("NaN", r, false, binOct) == Number(false, r, [23, 10, 23], 3, 0, false, 3)
  {
    hide Parse, Mantissa.Text, SmallText, ToDigit;
    var m := Mantissa([23, 10, 23], false, []);
    NaNParts();
    NumberReads("", m, "", r, false, binOct);
    NaNFinite(r, binOct);
    CaseBlind("NaN", r, false, binOct);
  }

  lemma NaNParts()
    ensures Mantissa([23, 10, 23], false, []).Text() + "" == "nan" && |Mantissa([23, 10, 23], false, []).Text()| == 3
    ensures "" + "nan" == "nan" && SmallText("NaN") == "nan" && ToDigit('\0') == 36
  {}

  lemma NaNFinite(r: nat, binOct: bool)
    requires 24 <= r <= 36
    ensures !Parse("NaN", r, false, binOct).Infinite?
  {
    BodyFinite("NaN", 0, 0, r, false, false);
    hide ParseBody, ToDigit;
    NotInfinity("NaN");
  }

  lemma NaNMeaning(r: nat)
    requires IsRadix(r)
    ensures Meaning(Mantissa([23, 10, 23], false, []), r, r, 0) == (23 * r * r + 10 * r + 23) as real
  {
    hide Num;
    ThreeDigits(23, 10, 23, r);
    NoDigitsNum(r);
    ExpandThree(r);
  }

  lemma ThreeDigits(a: nat, b: nat, c: nat, r: nat)
    ensures Num([a, b, c], r) == (a * r + b) * r + c
  {
    hide Num;
    NoDigitsNum(r);
    NumAppend([], a, r);
    NumAppend([a], b, r);
    NumAppend([a, b], c, r);
    assert [] + [a] == [a] && [a] + [b] == [a, b] && [a, b] + [c] == [a, b, c];
  }

  lemma NoDigitsNum(r: nat)
    ensures Num([], r) == 0
  {}

  lemma ExpandThree(r: nat)
    ensures (23 * r + 10) * r + 23 == 23 * r * r + 10 * r + 23
  {}

  lemma NotFinitePattern(a: nat)
    requires a < BASE && !Decode(a).Finite? && a % TWO52 == 0
    ensures a == INF + if a >= SIGN then SIGN else 0
  {}

  /**
    * js_atod undoes js_dtoa: every double that is not a NaN comes back bit for bit, in every radix and layout. A NaN
    * comes back as the quiet NaN up to radix 23; in a larger radix it comes back as a number.
    */
  method RoundTrip(table: seq<Entry>, a: Limb, r: nat, mode: ExpMode, fast: bool) returns (b: nat)
    requires AccurateTable(table) && IsRadix(r)
    ensures Decode(a).Finite? || a % TWO52 == 0 ==> b == a
    ensures !Decode(a).Finite? && a % TWO52 != 0 ==>
      b == if r <= 23 then NAN else Encode(false, ToDouble(NearestEven, (23 * r * r + 10 * r + 23) as real))
  {
    hide Parse, NearestBits, Decode, AccurateTable, Encode, ToDouble, FitsCounters;
    hide FreeText, ExponentLaw, EcmaToString;
    if !Decode(a).Finite? {
      NaNText(r, false);
      InfinityText(a >= SIGN, r, false);
      if a % TWO52 == 0 { NotFinitePattern(a); }
    }
    var t := Print(table, a, r, mode, true, false);
    var end;
    b, end := Read(t, r, false, false, fast);
  }

  /** An integer behind the prefix that names its radix is read as the nearest double, to the end of the text. */
  method ReadPrefixed(n: Limb, r: nat, neg: bool, intOnly: bool, fast: bool) returns (a: nat, s: string, end: nat)
    requires r == 2 || r == 8 || r == 16
    ensures
      var c := if r == 16 then 'x' else if r == 8 then 'o' else 'b';
      s == (if neg then "-" else "") + (['0', c] + Chars(Plain(n, r)))
    ensures a == Encode(neg, ToDouble(NearestEven, n as real)) && end == |s|
  {
    hide Parse, NearestBits, Encode, ToDouble, Chars, Plain;
    var c, sign := if r == 16 then 'x' else if r == 8 then 'o' else 'b', if neg then "-" else "";
    var t := U64toaRadix(n, r);
    s := sign + (['0', c] + t);
    SmallAlready(sign, c, Plain(n, r));
    PrefixedInteger(s, sign, c, r, n, 0, intOnly, true);
    a, end := Read(s, 0, intOnly, true, fast);
  }

  lemma SmallAlready(sign: string, c: char, ds: seq<nat>)
    requires IsSign(sign) && Small(c) == c && AreDigits(ds, 36)
    ensures
      var s := sign + (['0', c] + Chars(ds));
      SmallText(s) == s
  {
    var s := sign + (['0', c] + Chars(ds));
    assert forall i :: 0 <= i < |s| ==> Small(s[i]) == s[i];
  }
}
