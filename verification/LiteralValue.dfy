/** The real number a literal stands for, its range, and the double js_atod of src/dtoa.c must return for it. */
module LiteralValue {
  import opened Powers
  import opened Rounding
  import opened Tables
  import opened LogTables
  import opened Doubles
  import opened DoubleBits
  import opened RoundedScaling
  import opened FreeLoop
  import opened Estimates
  import opened Literal
  import opened DigitReader

  /** The exponent of the radix at the last of the first `n` digits. */
  function RadixScale(lit: Lit, n: nat): int
    requires lit.Number?
  {
    lit.dot - n + if lit.binary then 0 else lit.exponent
  }

  /** The separate exponent of two. */
  function BinaryScale(lit: Lit): int
    requires lit.Number?
  {
    if lit.binary then lit.exponent else 0
  }

  /** The exact value of a literal, cut after its first `n` digits. */
  ghost function ValueOf(lit: Lit, n: nat): (x: real)
    requires lit.Number? && lit.radix >= 2 && n <= |lit.digits|
    ensures x >= 0.0
  {
    Scaled(Num(lit.digits[..n], lit.radix), BinaryScale(lit), lit.radix, RadixScale(lit, n))
  }

  /** The digits that count: all of them in a power-of-two radix, else as many as are kept. */
  function Counted(lit: Lit): (n: nat)
    requires lit.Number? && IsRadix(lit.radix)
    ensures n <= |lit.digits|
  {
    if IsPow2Radix(lit.radix) then |lit.digits|
    else LeadingZeros(lit.digits) + |Kept(lit.digits, lit.radix)|
  }

  /** A literal as ParseBody makes it. */
  ghost predicate WellFormed(lit: Lit) {
    lit.Number? && IsRadix(lit.radix) && AreDigits(lit.digits, lit.radix) && lit.dot <= |lit.digits|
  }

  /** The pattern of the double nearest to a literal. */
  ghost function NearestBits(lit: Lit): (a: nat)
    requires lit.Number? ==> IsRadix(lit.radix)
  {
    match lit
    case Fail(_) => NAN
    case Infinite(neg, _) => INF + if neg then SIGN else 0
    case Number(neg, _, _, _, _, _, _) => Encode(neg, ToDouble(NearestEven, ValueOf(lit, Counted(lit))))
  }

  // ----- range -----

  /** A literal with a non-zero digit lies between neighbouring powers of its radix, times its power of two. */
  lemma ValueRange(lit: Lit, n: nat)
    requires WellFormed(lit) && LeadingZeros(lit.digits) < n <= |lit.digits|
    ensures
      var k, p := lit.dot - LeadingZeros(lit.digits) + RadixScale(lit, lit.dot), Pw(2, BinaryScale(lit));
      p * Pw(lit.radix, k - 1) <= ValueOf(lit, n) < p * Pw(lit.radix, k)
  {
    hide Pw, Pow, Num, LeadingZeros, Scaled;
    var z := LeadingZeros(lit.digits);
    DigitsRange(lit.digits, n, lit.radix);
    ScaledRange(Num(lit.digits[..n], lit.radix), BinaryScale(lit), lit.radix, RadixScale(lit, n), n - z);
    assert n - z + RadixScale(lit, n) == lit.dot - z + RadixScale(lit, lit.dot);
  }

  lemma ScaledRange(v: nat, e: int, r: nat, f: int, j: nat)
    requires r >= 1 && j >= 1 && Pow(r, j - 1) <= v < Pow(r, j)
    ensures Pw(2, e) * Pw(r, j + f - 1) <= Scaled(v, e, r, f) < Pw(2, e) * Pw(r, j + f)
  {
    hide Pw, Pow;
    PwNat(r, j);
    PwNat(r, j - 1);
    PwAdd(r, j, f);
    PwAdd(r, j - 1, f);
    assert j - 1 + f == j + f - 1;
    ScaleRange(v as real, Pw(r, j - 1), Pw(r, j), Pw(r, f), Pw(r, j + f - 1), Pw(r, j + f));
    ScaleBoth(v as real, Pw(2, e), Pw(r, f), Pw(r, j + f - 1), Pw(r, j + f));
  }

  lemma ScaleBoth(v: real, p: real, w: real, lo: real, hi: real)
    requires p > 0.0 && lo <= v * w < hi
    ensures p * lo <= (v * p) * w < p * hi
  {
    RMulMono(lo, v * w, p);
    RMulStrict(v * w, hi, p);
    assert (v * w) * p == (v * p) * w;
  }

  lemma DigitsRange(ds: seq<nat>, n: nat, r: nat)
    requires IsRadix(r) && AreDigits(ds, r) && LeadingZeros(ds) < n <= |ds|
    ensures
      var z := LeadingZeros(ds);
      Num(ds[..n], r) == Num(ds[z..n], r) && Pow(r, n - z - 1) <= Num(ds[..n], r) < Pow(r, n - z)
  {
    hide Num, Pow;
    var z := LeadingZeros(ds);
    ZerosAre(ds[..n], z);
    NumSkipZeros(ds[..n], r);
    assert ds[..n][z..] == ds[z..n];
    NumTop(ds[z..n], r);
    NumBound(ds[z..n], r);
  }

  /** Without a non-zero digit the value is zero. */
  lemma ValueZero(lit: Lit, n: nat)
    requires WellFormed(lit) && LeadingZeros(lit.digits) == |lit.digits| && n <= |lit.digits|
    ensures ValueOf(lit, n) == 0.0
  {
    hide Pw, Num;
    NumZeros(lit.digits[..n], lit.radix);
    ScaledZero(BinaryScale(lit), lit.radix, RadixScale(lit, n));
  }

  // ----- other radices -----

  /** The exponent js_atod compares with its bounds. */
  function TopExponent(lit: Lit): int
    requires lit.Number?
  {
    lit.dot - LeadingZeros(lit.digits) + lit.exponent
  }

  /** The early exits of a radix that is no power of two agree with rounding. */
  lemma ExitsAgree(lit: Lit)
    requires WellFormed(lit) && NeedsBracket(lit.radix) && !lit.binary && LeadingZeros(lit.digits) < |lit.digits|
    ensures TopExponent(lit) >= MaxExponent(lit.radix) + 1 ==> NearestBits(lit) == Encode(lit.neg, (1, 1025))
    ensures TopExponent(lit) <= -(MinExponentNeg(lit.radix) as int) ==> NearestBits(lit) == Encode(lit.neg, (0, 0))
  {
    hide Pw, Pow, ToDouble, ValueOf, MaxExponent, MinExponentNeg, LeadingZeros, Num;
    var r, k, n := lit.radix, TopExponent(lit), Counted(lit);
    CountedSome(lit);
    ValueRange(lit, n);
    ExponentTables(r);
    OneTimes(Pw(2, 0), Pw(r, k - 1));
    OneTimes(Pw(2, 0), Pw(r, k));
    if k >= MaxExponent(r) + 1 {
      PwMono(r, MaxExponent(r), k - 1);
      PwNat(r, MaxExponent(r));
      PwNat(2, 1024);
      HugeInfinite(ValueOf(lit, n));
    }
    if k <= -(MinExponentNeg(r) as int) {
      PwMono(r, k, -(MinExponentNeg(r) as int));
      InverseAtMost(r, MinExponentNeg(r), 1075);
      TinyZero(ValueOf(lit, n));
    }
  }

  lemma OneTimes(one: real, x: real)
    requires one == 1.0
    ensures one * x == x
  {}

  lemma InverseAtMost(r: nat, c: nat, b: nat)
    requires r >= 1 && Pow(2, b) <= Pow(r, c)
    ensures Pw(r, -(c as int)) <= Pw(2, -(b as int))
  {
    hide Pw, Pow;
    PwNat(r, c);
    PwNat(2, b);
    PwAdd(r, c, -(c as int));
    PwAdd(2, b, -(b as int));
    assert c + -(c as int) == 0 && b + -(b as int) == 0;
    InverseOrder(Pw(r, c), Pw(r, -(c as int)), Pw(2, b), Pw(2, -(b as int)), Pw(r, 0));
  }

  lemma CountedSome(lit: Lit)
    requires WellFormed(lit) && LeadingZeros(lit.digits) < |lit.digits|
    ensures LeadingZeros(lit.digits) < Counted(lit)
  {
    hide LeadingZeros, AtodMaxDigits;
    KeptDigits(lit.radix);
  }

  // ----- power-of-two radices -----

  /** The exponent of two above the leading digit, as js_atod compares it with its bounds. */
  function TopBits(lit: Lit): int
    requires lit.Number?
  {
    var bits := RadixBits(lit.radix);
    (if lit.binary then lit.exponent else lit.exponent * bits) + (lit.dot - LeadingZeros(lit.digits)) * bits
  }

  lemma BitsOfRadix(r: nat)
    requires IsPow2Radix(r)
    ensures RadixBits(r) == RadixShift(r) && 1 <= RadixBits(r) <= 5 && r == Pow(2, RadixBits(r))
  {
    assert Pow(2, 1) == 2 && Pow(2, 2) == 4 && Pow(2, 3) == 8 && Pow(2, 4) == 16 && Pow(2, 5) == 32;
    assert RadixShift(2) == 1 && RadixShift(4) == 2 && RadixShift(8) == 3 && RadixShift(16) == 4 && RadixShift(32) == 5;
  }

  lemma Pow2Range(lit: Lit)
    requires WellFormed(lit) && IsPow2Radix(lit.radix) && LeadingZeros(lit.digits) < |lit.digits|
    ensures Pw(2, TopBits(lit) - RadixBits(lit.radix)) <= ValueOf(lit, |lit.digits|) < Pw(2, TopBits(lit))
  {
    hide Pw, Pow, ValueOf, LeadingZeros, RadixBits, Num;
    var r, b := lit.radix, RadixBits(lit.radix);
    BitsOfRadix(r);
    ValueRange(lit, |lit.digits|);
    var k, e := lit.dot - LeadingZeros(lit.digits) + RadixScale(lit, lit.dot), BinaryScale(lit);
    PwOfPow(2, b, k);
    PwOfPow(2, b, k - 1);
    PwAdd(2, e, k * b);
    PwAdd(2, e, (k - 1) * b);
    TopParts(lit, b, k, e);
  }

  lemma TopParts(lit: Lit, b: nat, k: int, e: int)
    requires lit.Number? && b == RadixBits(lit.radix) && e == BinaryScale(lit)
    requires k == lit.dot - LeadingZeros(lit.digits) + RadixScale(lit, lit.dot)
    ensures e + k * b == TopBits(lit) && e + (k - 1) * b == TopBits(lit) - b
  {
    hide LeadingZeros, RadixBits;
    Distribute(lit.dot - LeadingZeros(lit.digits), lit.exponent, b);
    assert (k - 1) * b == k * b - b;
  }

  lemma Distribute(x: int, y: int, b: int)
    ensures (x + y) * b == x * b + y * b
  {}

  /** The early exits of a power-of-two radix agree with rounding. */
  lemma BitExitsAgree(lit: Lit)
    requires WellFormed(lit) && IsPow2Radix(lit.radix) && LeadingZeros(lit.digits) < |lit.digits|
    ensures TopBits(lit) >= 1024 + RadixBits(lit.radix) ==> NearestBits(lit) == Encode(lit.neg, (1, 1025))
    ensures TopBits(lit) <= -1075 ==> NearestBits(lit) == Encode(lit.neg, (0, 0))
  {
    hide Pw, ToDouble, ValueOf, LeadingZeros, RadixBits, TopBits;
    Pow2Range(lit);
    var t, x := TopBits(lit), ValueOf(lit, |lit.digits|);
    if t >= 1024 + RadixBits(lit.radix) {
      PwMono(2, 1024, t - RadixBits(lit.radix));
      HugeInfinite(x);
    }
    if t <= -1075 {
      PwMono(2, t, -1075);
      TinyZero(x);
    }
  }
}
