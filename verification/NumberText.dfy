/** The shape of the texts js_dtoa of src/dtoa.c writes, told from the number they stand for. */
module NumberText {
  import opened Powers
  import opened Rounding
  import opened Tables
  import opened Doubles
  import opened Nearest
  import opened Shortest
  import opened PowerDigits
  import opened Hardware
  import opened Literal
  import opened DigitText
  import opened Layout
  import opened LayoutReads

  // ----- when there is an exponent -----

  /** Whether a text holds the exponent mark of its radix: e, or p for a power of two up to 16, or @. */
  predicate Marked(t: string, r: nat) {
    if r == 10 then 'e' in t
    else if r == 2 || r == 4 || r == 8 || r == 16 then 'p' in t
    else '@' in t
  }

  lemma DigitUnmarked(d: nat, r: nat)
    requires IsRadix(r) && d < r
    ensures !Marked([DigitChar(d)], r)
  {}

  lemma {:induction false} CharsUnmarked(ds: seq<nat>, r: nat)
    requires IsRadix(r) && AreDigits(ds, r) && AreDigits(ds, 36)
    ensures !Marked(Chars(ds), r)
  {
    hide DigitChar;
    forall i | 0 <= i < |ds| ensures !Marked([Chars(ds)[i]], r) { DigitUnmarked(ds[i], r); }
  }

  lemma MarkedConcat(a: string, b: string, r: nat)
    ensures Marked(a + b, r) <==> Marked(a, r) || Marked(b, r)
  {}

  lemma PutDotUnmarked(f: seq<nat>, dot: nat, r: nat)
    requires IsRadix(r) && AreDigits(f, r) && AreDigits(f, 36) && dot <= |f|
    ensures !Marked(PutDot(f, dot), r)
  {
    hide Chars;
    CharsUnmarked(f, r);
    CharsUnmarked(f[..dot], r);
    CharsUnmarked(f[dot..], r);
  }

  lemma LaidMarked(ds: seq<nat>, k: int, r: nat, mode: ExpMode)
    requires IsRadix(r) && AreDigits(ds, r) && AreDigits(ds, 36) && |ds| >= 1
    ensures Marked(Laid(ds, k, r, mode), r) <==> UseExp(k, r, mode)
  {
    hide UseExp, Signed, Written, Chars, Padded;
    if UseExp(k, r, mode) {
      var a, b := PutDot(ds, 1), Signed(Written(k, r));
      MarkedConcat(a + [Mark(r)], b, r);
      MarkedConcat(a, [Mark(r)], r);
      MarkIsMark(r);
    } else {
      PaddedDigits(ds, k, r);
      PutDotUnmarked(Padded(ds, k), PointAt(k), r);
    }
  }

  lemma MarkIsMark(r: nat)
    requires IsRadix(r)
    ensures Marked([Mark(r)], r)
  {}

  /** Digits without a leading zero lie between neighbouring powers. */
  lemma DigitsRangeAt(n: nat, len: nat, k: int, r: nat)
    requires r >= 2 && len >= 1 && Pow(r, len - 1) <= n < Pow(r, len)
    ensures Pw(r, k - 1) <= Shifted(n as real, r, k - len) < Pw(r, k)
  {
    hide Pw, Pow, Shifted;
    ShiftPower(r, len - 1, k - len);
    ShiftPower(r, len, k - len);
    assert len - 1 + (k - len) == k - 1 && len + (k - len) == k;
    ShiftMono(Pow(r, len - 1) as real, n as real, r, k - len);
    ShiftMono(n as real, Pow(r, len) as real, r, k - len);
  }

  /** Where the thresholds lie, told by the number. */
  lemma Threshold(x: real, k: int, r: nat, low: int, high: int)
    requires r >= 2 && Pw(r, k - 1) <= x < Pw(r, k)
    ensures k <= low <==> x < Pw(r, low)
    ensures k > high <==> x >= Pw(r, high)
  {
    hide Pw;
    if k <= low { PwMono(r, k, low); } else { PwMono(r, low, k - 1); }
    if k > high { PwMono(r, high, k - 1); } else { PwMono(r, k, high); }
  }

  /**
    * When the text of a number is written with an exponent: always in the enabled mode, never in the disabled mode, and
    * in the automatic mode when the number is below radix^-6 or not below radix^(dtoa_max_digits + 4), which in decimal
    * is 10^21.
    */
  ghost predicate ExponentLaw(t: string, x: real, r: nat, mode: ExpMode)
    requires IsRadix(r)
  {
    match mode
    case Enabled => Marked(t, r)
    case Disabled => !Marked(t, r)
    case Auto => Marked(t, r) <==> x < Pw(r, -6) || x >= Pw(r, DtoaMaxDigits(r) + 4)
  }

  /** The texts of the printer keep the law, told by the number they stand for. */
  lemma MarkLaw(neg: bool, n: nat, len: nat, k: int, r: nat, mode: ExpMode)
    requires IsRadix(r) && len >= 1 && Pow(r, len - 1) <= n < Pow(r, len)
    ensures
      var x, t := Shifted(n as real, r, k - len), (if neg then "-" else "") + Laid(DigitsOf(n, r, len), k, r, mode);
      ExponentLaw(t, x, r, mode)
  {
    hide Pw, Pow, Shifted, Laid, DigitsOf, DtoaMaxDigits;
    var ds, sign := DigitsOf(n, r, len), if neg then "-" else "";
    LaidMarked(ds, k, r, mode);
    MarkedConcat(sign, Laid(ds, k, r, mode), r);
    assert !Marked(sign, r);
    DigitsRangeAt(n, len, k, r);
    Threshold(Shifted(n as real, r, k - len), k, r, -6, DtoaMaxDigits(r) + 4);
  }

  // ----- Number::toString of ECMA-262 -----

  function Repeated(n: nat, c: char): (t: string)
    ensures |t| == n && forall i :: 0 <= i < n ==> t[i] == c
  {
    seq(n, i => c)
  }

  /** The sign and the decimal digits of an exponent. */
  function EcmaExponent(x: int): (t: string) {
    if x >= 0 then "+" + Chars(Plain(x, 10)) else "-" + Chars(Plain(-x, 10))
  }

  /**
    * Section 6.1.6.1.20 of ECMA-262, steps 6 to 12: the text of a positive number whose digits are `ds`, with the
    * point `n` places after their start.
    */
  function EcmaText(ds: seq<nat>, n: int): (t: string)
    requires |ds| >= 1 && AreDigits(ds, 36)
  {
    var k := |ds|;
    if k <= n <= 21 then Chars(ds) + Repeated(n - k, '0')
    else if 0 < n <= 21 then Chars(ds[..n]) + "." + Chars(ds[n..])
    else if -6 < n <= 0 then "0." + Repeated(-n, '0') + Chars(ds)
    else if k == 1 then Chars(ds) + "e" + EcmaExponent(n - 1)
    else Chars(ds[..1]) + "." + Chars(ds[1..]) + "e" + EcmaExponent(n - 1)
  }

  lemma ZerosText(n: nat)
    ensures Chars(Zeros(n)) == Repeated(n, '0')
  {
    assert DigitChar(0) == '0';
  }

  /** In decimal and the automatic mode the layout is the one ECMA-262 prescribes. */
  lemma LaidIsEcma(ds: seq<nat>, n: int)
    requires |ds| >= 1 && AreDigits(ds, 36)
    ensures Laid(ds, n, 10, Auto) == EcmaText(ds, n)
  {
    hide Chars, Zeros, Repeated, Plain;
    assert DtoaMaxDigits(10) == 17;
    if UseExp(n, 10, Auto) {
      assert Mark(10) == 'e' && Written(n, 10) == n - 1;
      assert Signed(n - 1) == EcmaExponent(n - 1);
      if |ds| > 1 {
        assert PutDot(ds, 1) == Chars(ds[..1]) + "." + Chars(ds[1..]);
      } else {
        assert PutDot(ds, 1) == Chars(ds);
      }
    } else if n <= 0 {
      SmallPadded(ds, n);
      ZerosText(-n);
      assert "0" + "." == "0.";
    } else {
      LargePadded(ds, n);
      ZerosText(if n - |ds| > 0 then n - |ds| else 0);
      if n < |ds| { NoZeros(Chars(ds[..n]) + "." + Chars(ds[n..])); }
    }
  }

  lemma NoZeros(t: string)
    ensures t + Repeated(0, '0') == t
  {}

  // ----- integers below 2^53 -----

  lemma IntegerItself(n: nat, m: nat, e: int)
    requires 0 < n < TWO53 && Canonical(m, e) && Real(m, e) == n as real
    ensures ToDouble(NearestEven, n as real) == (m, e)
  {
    hide Pow, Pw, ToDouble, Real, Canonical, Units, Exp2;
    SmallExact(n);
    SameValue(NearestEven, n as real, m, e);
  }

  lemma SmallExact(n: nat)
    requires 0 < n < TWO53
    ensures Rounded(NearestEven, n as real) == n as real
  {
    hide Pow, Pw, ToDouble, Real, Units, Exp2;
    PowUnfold(2, 0);
    SignificantUnits(n, n, 0);
    ToDoubleReal(NearestEven, n as real);
  }

  /** Among the integers only the integer itself reads back as one below 2^53. */
  lemma OnlyItself(v: nat, n: nat, m: nat, e: int)
    requires 0 < n < TWO53 && Canonical(m, e) && Real(m, e) == n as real
    requires ToDouble(NearestEven, v as real) == (m, e)
    ensures v == n
  {
    hide Pow, Pw, ToDouble, Real, Canonical;
    if v == 0 {
      ToDoubleZero();
      ZeroReal(0);
    } else if v < TWO53 {
      SmallExact(v);
    } else {
      SmallExact(n);
      if n < TWO53 - 1 {
        SmallExact(TWO53 - 1);
        RoundedMono(NearestEven, (TWO53 - 1) as real, v as real);
      } else {
        TopExact();
        RoundedMono(NearestEven, TWO53 as real, v as real);
      }
    }
  }

  lemma TopExact()
    ensures Rounded(NearestEven, TWO53 as real) == TWO53 as real
  {
    hide Pw, ToDouble, Real, Units, Exp2;
    PowUnfold(2, 0);
    assert Pow(2, 1) == 2;
    SignificantUnits(TWO53, TWO53 / 2, 1);
    ToDoubleReal(NearestEven, TWO53 as real);
  }

  /** The digits of an integer without its trailing zeros. */
  function Significant(n: nat, r: nat): (d: Decimal)
    requires r >= 2
  {
    Strip(Decimal(n, Length(n, r), Length(n, r)), r)
  }

  lemma SignificantForm(n: nat, r: nat)
    requires IsRadix(r) && n > 0
    ensures
      var d, len := Significant(n, r), Length(n, r);
      && d.exp == len && 1 <= d.digits <= len && Pow(r, d.digits - 1) <= d.mant < Pow(r, d.digits) && d.mant % r != 0
      && n == d.mant * Pow(r, len - d.digits) && DecValue(d, r) == n as real
  {
    hide Pow, Pw, Strip, Length, Shifted;
    var len := Length(n, r);
    var d0 := Decimal(n, len, len);
    PowUnfold(r, 0);
    StripKeeps(d0, r);
    StripLeading(d0, r);
    ShiftZero(n as real, r);
    assert len - len == 0;
    var d := Strip(d0, r);
    ShiftNat(d.mant, r, len - d.digits);
  }

  /** Fewer digits with a point to spare stay below the integer. */
  lemma TooSmall(w: Decimal, n: nat, r: nat, m: nat, e: int)
    requires IsRadix(r) && 0 < n < TWO53 && Canonical(m, e) && Real(m, e) == n as real
    requires 1 <= w.digits < Length(n, r) && w.mant < Pow(r, w.digits) && w.exp < w.digits
    ensures !ReadsBack(w, r, m, e)
  {
    hide Pow, Pw, ToDouble, Real, Canonical, Length, DecValue;
    var len, v := Length(n, r), DecValue(w, r);
    DecBelow(w, r);
    PwMono(r, w.exp, len - 2);
    var q := Pow(r, len - 2);
    PwNat(r, len - 2);
    PowPositive(r, len - 2);
    PowUnfold(r, len - 2);
    MulMono(2, r, q, q);
    SmallExact(q);
    if v == 0.0 {
      ToDoubleZero();
      ZeroReal(0);
    } else {
      RoundedMono(NearestEven, v, q as real);
    }
  }

  lemma TooRound(w: Decimal, d: Decimal, n: nat, r: nat, len: nat, i: nat)
    requires r >= 2 && 1 <= w.digits < d.digits <= len && w.mant < Pow(r, w.digits) && n == w.mant * Pow(r, i)
    requires Pow(r, len - 1) <= n && n == d.mant * Pow(r, len - d.digits)
    ensures d.mant % r == 0
  {
    hide Pow;
    var z := len - d.digits;
    PowPositive(r, i);
    PowAdd(r, w.digits, i);
    MulMono(w.mant, Pow(r, w.digits), Pow(r, i), Pow(r, i));
    if w.digits + i < len { StrictFactor(w.mant, Pow(r, w.digits), Pow(r, i)); PowMono(r, w.digits + i, len - 1); }
    var c := w.mant * Pow(r, i - z - 1);
    PowAdd(r, i - z - 1, z + 1);
    assert i - z - 1 + (z + 1) == i;
    PowUnfold(r, z);
    Regroup(w.mant, Pow(r, i - z - 1), r, Pow(r, z), Pow(r, z + 1), Pow(r, i));
    PowPositive(r, z);
    SameQuotient(d.mant, c * r, Pow(r, z));
    Multiple(c, r);
  }

  lemma StrictFactor(a: int, b: int, c: int)
    requires a < b && c >= 1
    ensures a * c < b * c
  {}

  lemma Regroup(w: int, a: int, r: int, z: int, rz: int, az: int)
    requires rz == r * z && az == a * rz
    ensures w * az == (w * a * r) * z
  {
    assert w * (a * (r * z)) == w * a * r * z;
  }

  lemma SameQuotient(a: int, b: int, z: int)
    requires z >= 1 && a * z == b * z
    ensures a == b
  {}

  lemma Multiple(c: nat, r: nat)
    requires r >= 1
    ensures c * r % r == 0
  {
    DivModUnique(c * r, r, c, 0);
  }

  /** No fewer digits than those of the integer itself, trailing zeros aside, read back as it. */
  lemma IntegerFewest(n: nat, r: nat, m: nat, e: int)
    requires IsRadix(r) && 0 < n < TWO53 && Canonical(m, e) && Real(m, e) == n as real
    ensures Fewest(Significant(n, r), r, m, e)
  {
    hide Pow, Pw, ToDouble, Real, Canonical, Length, Significant, Shifted;
    SignificantForm(n, r);
    var d, len := Significant(n, r), Length(n, r);
    forall w: Decimal | 1 <= w.digits < d.digits && w.mant < Pow(r, w.digits)
      ensures !ReadsBack(w, r, m, e)
    {
      if w.exp < w.digits {
        TooSmall(w, n, r, m, e);
      } else if ReadsBack(w, r, m, e) {
        var i := w.exp - w.digits;
        ShiftNat(w.mant, r, i);
        OnlyItself(w.mant * Pow(r, i), n, m, e);
        TooRound(w, d, n, r, len, i);
      }
    }
  }

  /** Dropping trailing zeros drops zero digits of the text. */
  lemma {:induction false} StripDigits(d: Decimal, r: nat)
    requires r >= 2 && d.digits >= 1 && 0 < d.mant < Pow(r, d.digits)
    ensures
      var s := Strip(d, r);
      && 1 <= s.digits <= d.digits
      && DigitsOf(d.mant, r, d.digits) == DigitsOf(s.mant, r, s.digits) + Zeros(d.digits - s.digits)
    decreases d.mant
  {
    hide Pow, Strip, DigitsOf;
    StripStep(d, r);
    if d.mant % r == 0 {
      var q := DropZero(d.mant, r, d.digits);
      StripDigits(Decimal(q, d.digits - 1, d.exp), r);
      DigitsOfStep(d.mant, r, d.digits);
      var s := Strip(d, r);
      assert Zeros(d.digits - s.digits) == Zeros(d.digits - 1 - s.digits) + [0];
    }
  }

  /** A plain integer is laid out like its significant digits. */
  lemma PlainIsLaid(n: nat, r: nat, mode: ExpMode)
    requires IsRadix(r) && 0 < n < TWO53 && !mode.Enabled?
    ensures
      var d := Significant(n, r);
      d.digits >= 1 && Laid(DigitsOf(d.mant, r, d.digits), d.exp, r, mode) == Chars(Plain(n, r))
  {
    hide Pow, Strip, DigitsOf, Chars, Length, DtoaMaxDigits;
    SignificantForm(n, r);
    var d, len := Significant(n, r), Length(n, r);
    PowUnfold(r, 0);
    StripDigits(Decimal(n, len, len), r);
    PlainShort(n, r);
    var ds := DigitsOf(d.mant, r, d.digits);
    LargePadded(ds, len);
    if len > d.digits { CharsConcat(ds, Zeros(len - d.digits)); }
    assert ds + Zeros(0) == ds;
  }

  lemma PlainShort(n: nat, r: nat)
    requires IsRadix(r) && n < TWO53
    ensures |Plain(n, r)| == Length(n, r) <= DtoaMaxDigits(r)
  {
    hide Pow, DtoaMaxDigits, Length;
    DtoaTable(r);
    var len, d := Length(n, r), DtoaMaxDigits(r);
    if len > d { PowMono(r, d - 1, len - 1); }
  }
}
