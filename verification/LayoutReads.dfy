/** Reading back the texts js_dtoa writes. */
module LayoutReads {
  import opened Powers
  import opened Tables
  import opened RoundedScaling
  import opened Shortest
  import opened FreeLoop
  import opened Estimates
  import opened Literal
  import opened LiteralValue
  import opened DigitText
  import opened Layout

  // ----- scanning what was written -----

  function Prepend(ds: seq<nat>, b: Body): (c: Body) {
    Body(ds + b.digits, if b.dot >= 0 then b.dot + |ds| else -1, b.end)
  }

  lemma {:induction false} ScanRun(s: string, p: nat, start: nat, r: nat, seen: bool, ds: seq<nat>)
    requires IsRadix(r) && AreDigits(ds, r) && AreDigits(ds, 36) && p + |ds| <= |s| && s[p..p + |ds|] == Chars(ds)
    requires start <= p
    ensures Scan(s, p, start, r, false, seen) == Prepend(ds, Scan(s, p + |ds|, start, r, false, seen))
    ensures |ds| > 0 ==> p + |ds| > start
    decreases |ds|
  {
    hide Chars, Scan, Prepend;
    var whole := Scan(s, p + |ds|, start, r, false, seen);
    PrependMore([], [], whole);
    if ds == [] {
      assert Scan(s, p, start, r, false, seen) == whole;
    } else {
      var rest := ds[1..];
      RunTail(s, p, ds);
      ScanDigit(s, p, start, r, seen, ds[0]);
      ScanRun(s, p + 1, start, r, seen, rest);
      PrependMore([ds[0]], rest, whole);
      assert [ds[0]] + rest == ds;
    }
  }

  lemma PrependMore(a: seq<nat>, ds: seq<nat>, b: Body)
    ensures Prepend(a, Prepend(ds, b)) == Prepend(a + ds, b)
    ensures b.dot >= -1 ==> Prepend([], b) == b
  {
    assert a + (ds + b.digits) == (a + ds) + b.digits && [] + b.digits == b.digits;
  }

  lemma RunTail(s: string, p: nat, ds: seq<nat>)
    requires AreDigits(ds, 36) && ds != [] && p + |ds| <= |s| && s[p..p + |ds|] == Chars(ds)
    ensures s[p] == DigitChar(ds[0]) && s[p + 1..p + |ds|] == Chars(ds[1..])
  {
    assert s[p] == s[p..p + |ds|][0];
    assert s[p + 1..p + |ds|] == s[p..p + |ds|][1..];
    CharsPush(ds[0], ds[1..]);
    assert ds == [ds[0]] + ds[1..];
  }

  lemma ScanDigit(s: string, p: nat, start: nat, r: nat, seen: bool, d: nat)
    requires IsRadix(r) && d < r && At(s, p) == DigitChar(d)
    ensures Scan(s, p, start, r, false, seen) == Prepend([d], Scan(s, p + 1, start, r, false, seen))
  {}

  lemma ScanStop(s: string, q: nat, start: nat, r: nat, seen: bool)
    requires IsRadix(r) && At(s, q) != '.' && ToDigit(At(s, q)) >= r
    ensures Scan(s, q, start, r, false, seen) == Body([], -1, q)
  {}

  lemma ScanPoint(s: string, p: nat, start: nat, r: nat)
    requires IsRadix(r) && At(s, p) == '.' && p > start
    ensures
      var b := Scan(s, p + 1, start, r, false, true);
      Scan(s, p, start, r, false, false) == Body(b.digits, 0, b.end)
  {}

  /** A mantissa with its point, up to a character that ends it. */
  lemma MantissaScan(s: string, start: nat, r: nat, ds: seq<nat>, dot: nat)
    requires IsRadix(r) && AreDigits(ds, r) && AreDigits(ds, 36) && 1 <= dot <= |ds|
    requires
      var q := start + |PutDot(ds, dot)|;
      q <= |s| && s[start..q] == PutDot(ds, dot) && At(s, q) != '.' && ToDigit(At(s, q)) >= r
    ensures Scan(s, start, start, r, false, false)
         == Body(ds, if dot == |ds| then -1 else dot, start + |PutDot(ds, dot)|)
  {
    hide Chars, Scan;
    var q := start + |PutDot(ds, dot)|;
    if dot == |ds| {
      ScanRun(s, start, start, r, false, ds);
      ScanStop(s, q, start, r, false);
      assert ds + [] == ds;
    } else {
      var a, b, p := ds[..dot], ds[dot..], start + dot;
      assert s[start..p] == s[start..q][..dot] && s[p] == s[start..q][dot] && s[p + 1..q] == s[start..q][dot + 1..];
      ScanRun(s, start, start, r, false, a);
      ScanPoint(s, p, start, r);
      ScanRun(s, p + 1, start, r, true, b);
      ScanStop(s, q, start, r, true);
      assert a + (b + []) == ds;
    }
  }

  lemma {:induction false} ExpRun(s: string, q: nat, ds: seq<nat>)
    requires AreDigits(ds, 10) && AreDigits(ds, 36) && q + |ds| == |s| && s[q..] == Chars(ds)
    ensures ExpDigits(s, q) == ds
    decreases |ds|
  {
    hide Chars;
    if ds != [] {
      assert s[q..] == s[q..q + |ds|] && s[q + 1..] == s[q + 1..q + |ds|];
      RunTail(s, q, ds);
      ExpRun(s, q + 1, ds[1..]);
    }
  }

  /** What the text is parsed as. */
  function LaidLit(neg: bool, ds: seq<nat>, k: int, r: nat, mode: ExpMode, end: nat): (lit: Lit)
    requires IsRadix(r)
  {
    if UseExp(k, r, mode) then Number(neg, r, ds, 1, Written(k, r), BinaryMark(r), end)
    else Number(neg, r, Padded(ds, k), PointAt(k), 0, false, end)
  }

  lemma MarkEnds(r: nat)
    requires IsRadix(r)
    ensures Mark(r) != '.' && ToDigit(Mark(r)) >= r && ExpMark(Mark(r), r)
    ensures BinaryMark(r) <==> Mark(r) == 'p'
    ensures Mark(r) != 'P' && Mark(r) != 'x' && Mark(r) != 'X'
  {}

  lemma LaidBody(s: string, start: nat, ds: seq<nat>, k: int, r: nat, mode: ExpMode, neg: bool)
    requires IsRadix(r) && AreDigits(ds, r) && AreDigits(ds, 36) && |ds| >= 1 && start <= |s|
    requires s[start..] == Laid(ds, k, r, mode)
    ensures ParseBody(s, start, start, r, false, neg) == LaidLit(neg, ds, k, r, mode, |s|)
  {
    if UseExp(k, r, mode) {
      LaidExp(s, start, ds, k, r, mode, neg);
    } else {
      LaidPlain(s, start, ds, k, r, mode, neg);
    }
  }

  lemma LaidPlain(s: string, start: nat, ds: seq<nat>, k: int, r: nat, mode: ExpMode, neg: bool)
    requires IsRadix(r) && AreDigits(ds, r) && AreDigits(ds, 36) && |ds| >= 1 && start <= |s| && !UseExp(k, r, mode)
    requires s[start..] == Laid(ds, k, r, mode)
    ensures ParseBody(s, start, start, r, false, neg) == LaidLit(neg, ds, k, r, mode, |s|)
  {
    hide Chars, Scan, DtoaMaxDigits, RadixBits;
    var f, dot := Padded(ds, k), PointAt(k);
    PaddedDigits(ds, k, r);
    var q := start + |PutDot(f, dot)|;
    assert |s[start..]| == |s| - start;
    assert s[start..q] == s[start..];
    MantissaScan(s, start, r, f, dot);
  }

  lemma PaddedDigits(ds: seq<nat>, k: int, r: nat)
    requires IsRadix(r) && AreDigits(ds, r) && |ds| >= 1
    ensures AreDigits(Padded(ds, k), r) && 1 <= PointAt(k) <= |Padded(ds, k)|
  {}

  lemma LaidExp(s: string, start: nat, ds: seq<nat>, k: int, r: nat, mode: ExpMode, neg: bool)
    requires IsRadix(r) && AreDigits(ds, r) && AreDigits(ds, 36) && |ds| >= 1 && start <= |s| && UseExp(k, r, mode)
    requires s[start..] == Laid(ds, k, r, mode)
    ensures ParseBody(s, start, start, r, false, neg) == LaidLit(neg, ds, k, r, mode, |s|)
  {
    hide Chars, Scan, DtoaMaxDigits, RadixBits, Mark, Written, Signed, BinaryMark, PutDot, ParseBody;
    var mant, x := PutDot(ds, 1), Written(k, r);
    MarkEnds(r);
    assert s[start..] == mant + ([Mark(r)] + Signed(x));
    TailParts(s, start, mant, Mark(r), Signed(x));
    MantissaScan(s, start, r, ds, 1);
    PutDotStart(ds, 1, r);
    ExponentBody(s, start, ds, r, start + |mant|, x, neg);
  }

  lemma TailParts(s: string, start: nat, mant: string, mark: char, rest: string)
    requires start <= |s| && s[start..] == mant + ([mark] + rest)
    ensures
      var q := start + |mant|;
      q < |s| && s[start..q] == mant && s[q] == mark && s[q + 1..] == rest
  {
    var t, q := s[start..], start + |mant|;
    assert |t| == |s| - start;
    assert s[start..q] == t[..|mant|] && s[q] == t[|mant|] && s[q + 1..] == t[|mant| + 1..];
  }

  lemma ExponentBody(s: string, start: nat, ds: seq<nat>, r: nat, q: nat, x: int, neg: bool)
    requires IsRadix(r) && |ds| >= 1 && start < q < |s| && s[q] == Mark(r) && s[q + 1..] == Signed(x)
    requires Scan(s, start, start, r, false, false) == Body(ds, if |ds| == 1 then -1 else 1, q)
    ensures ParseBody(s, start, start, r, false, neg) == Number(neg, r, ds, 1, x, BinaryMark(r), |s|)
  {
    hide Scan, Mark, ExpMark, Signed, BinaryMark, ExpDigits, Num;
    MarkEnds(r);
    SignedReads(s, q + 1, x);
  }

  /** A signed exponent up to the end of the text. */
  lemma SignedReads(s: string, q: nat, x: int)
    requires q <= |s| && s[q..] == Signed(x)
    ensures
      var (neg, p) := Sign(s, q);
      var ds := ExpDigits(s, p);
      && neg == (x < 0) && ToDigit(At(s, p)) < 10 && p + |ds| == |s|
      && (if neg then -(Num(ds, 10) as int) else Num(ds, 10)) == x
  {
    hide Chars, ExpDigits, Num, Plain;
    var n := if x < 0 then -x else x;
    var ds := Plain(n, 10);
    var c := if x < 0 then "-" else "+";
    assert Signed(x) == c + Chars(ds);
    assert |s[q..]| == |s| - q;
    assert s[q] == s[q..][0] && s[q + 1..] == s[q..][1..];
    ExpRun(s, q + 1, ds);
    PlainNum(n, 10);
    assert s[q + 1] == s[q + 1..][0];
    assert Chars(ds)[0] == DigitChar(ds[0]);
  }

  // ----- the start of the text -----

  lemma FirstChars(ds: seq<nat>, k: int, r: nat, mode: ExpMode)
    requires IsRadix(r) && AreDigits(ds, r) && AreDigits(ds, 36) && |ds| >= 1
    ensures
      var t := Laid(ds, k, r, mode);
      && |t| >= 1 && ToDigit(t[0]) < r && t[0] != 'I' && t[0] != '+' && t[0] != '-'
      && (|t| > 1 && r == 16 ==> t[1] != 'x' && t[1] != 'X')
  {
    hide DtoaMaxDigits, RadixBits, Signed, Written;
    MarkEnds(r);
    PaddedDigits(ds, k, r);
    var f, dot := if UseExp(k, r, mode) then ds else Padded(ds, k), if UseExp(k, r, mode) then 1 else PointAt(k);
    PutDotStart(f, dot, r);
  }

  lemma PutDotStart(f: seq<nat>, dot: nat, r: nat)
    requires IsRadix(r) && AreDigits(f, r) && AreDigits(f, 36) && 1 <= dot <= |f|
    ensures
      var t := PutDot(f, dot);
      && |t| >= 1 && ToDigit(t[0]) < r && t[0] != 'I' && t[0] != '+' && t[0] != '-'
      && (|t| > 1 ==> t[1] == '.' || ToDigit(t[1]) < r)
  {}

  /** The whole text, with or without a sign, is read as the literal it was laid out as. */
  lemma LaidParses(neg: bool, ds: seq<nat>, k: int, r: nat, mode: ExpMode, binOct: bool)
    requires IsRadix(r) && AreDigits(ds, r) && AreDigits(ds, 36) && |ds| >= 1
    ensures
      var s := (if neg then "-" else "") + Laid(ds, k, r, mode);
      Parse(s, r, false, binOct) == LaidLit(neg, ds, k, r, mode, |s|)
  {
    hide Laid, ParseBody, LaidLit;
    var t := Laid(ds, k, r, mode);
    var s := (if neg then "-" else "") + t;
    var start: nat := if neg then 1 else 0;
    FirstChars(ds, k, r, mode);
    assert s[start..] == t;
    assert At(s, start) == t[0];
    assert At(s, start + 1) == if |t| > 1 then t[1] else '\0';
    assert Sign(s, 0) == (neg, start);
    assert !StartsWith(s, start, "Infinity") by {
      if start + 8 <= |s| { assert s[start..start + 8][0] == s[start]; }
    }
    LaidBody(s, start, ds, k, r, mode, neg);
  }

  // ----- the value of what was written -----

  /** Trailing zeros may be cut. */
  lemma CutZeros(lit: Lit, n: nat)
    requires WellFormed(lit) && n <= |lit.digits| && (forall i :: n <= i < |lit.digits| ==> lit.digits[i] == 0)
    ensures ValueOf(lit, n) == ValueOf(lit, |lit.digits|)
  {
    hide Pw, Pow, Num;
    var ds, r := lit.digits, lit.radix;
    var j, f := |ds| - n, RadixScale(lit, |ds|);
    assert ds[..|ds|] == ds && ds == ds[..n] + ds[n..];
    NumConcat(ds[..n], ds[n..], r);
    NumZeros(ds[n..], r);
    var v := Num(ds[..n], r);
    PwNat(r, j);
    PwAdd(r, j, f);
    assert j + f == RadixScale(lit, n);
    CastProduct(v, Pow(r, j), Pw(r, j));
    MovePower(v as real, Pw(2, BinaryScale(lit)), Pw(r, j), Pw(r, f), (v * Pow(r, j)) as real, Pw(r, j + f));
  }

  lemma MovePower(v: real, p: real, a: real, b: real, va: real, ab: real)
    requires va == v * a && ab == a * b
    ensures (v * p) * ab == (va * p) * b
  {
    assert (v * p) * (a * b) == v * p * a * b;
    assert ((v * a) * p) * b == v * p * a * b;
  }

  /** The counted digits of a padded literal reach its last non-zero digit. */
  lemma CountedCovers(lit: Lit, ds: seq<nat>, k: int)
    requires WellFormed(lit) && (lit.digits == ds || lit.digits == Padded(ds, k)) && |ds| >= 1
    requires IsPow2Radix(lit.radix) || |ds| <= AtodMaxDigits(lit.radix)
    ensures forall i :: Counted(lit) <= i < |lit.digits| ==> lit.digits[i] == 0
  {
    hide LeadingZeros, AtodMaxDigits;
    var f := lit.digits;
    var z := LeadingZeros(f);
    KeptDigits(lit.radix);
  }

  /** A laid-out text stands for its digits at their exponent. */
  lemma LaidValue(neg: bool, ds: seq<nat>, k: int, r: nat, mode: ExpMode, end: nat)
    requires IsRadix(r) && AreDigits(ds, r) && |ds| >= 1 && (IsPow2Radix(r) || |ds| <= AtodMaxDigits(r))
    ensures
      var lit := LaidLit(neg, ds, k, r, mode, end);
      WellFormed(lit) && ValueOf(lit, Counted(lit)) == Shifted(Num(ds, r) as real, r, k - |ds|)
  {
    hide ValueOf, Counted, Num, AtodMaxDigits, DtoaMaxDigits, Shifted, RadixBits, Padded;
    var lit := LaidLit(neg, ds, k, r, mode, end);
    PaddedDigits(ds, k, r);
    CountedCovers(lit, ds, k);
    CutZeros(lit, Counted(lit));
    if !UseExp(k, r, mode) {
      PaddedValue(lit, ds, k);
    } else if BinaryMark(r) {
      BinaryExpValue(lit, ds, k);
    } else {
      RadixExpValue(lit, ds, k);
    }
  }

  lemma RadixExpValue(lit: Lit, ds: seq<nat>, k: int)
    requires lit.Number? && IsRadix(lit.radix) && lit == Number(lit.neg, lit.radix, ds, 1, k - 1, false, lit.end)
    ensures ValueOf(lit, |ds|) == Shifted(Num(ds, lit.radix) as real, lit.radix, k - |ds|)
  {
    hide Num, Scaled, Shifted;
    assert ds[..|ds|] == ds;
    ScaledInt(Num(ds, lit.radix), lit.radix, k - |ds|);
  }

  lemma BinaryExpValue(lit: Lit, ds: seq<nat>, k: int)
    requires lit.Number? && IsRadix(lit.radix) && IsPow2Radix(lit.radix)
    requires lit == Number(lit.neg, lit.radix, ds, 1, (k - 1) * RadixBits(lit.radix), true, lit.end)
    ensures ValueOf(lit, |ds|) == Shifted(Num(ds, lit.radix) as real, lit.radix, k - |ds|)
  {
    hide Num, Pw, Pow, RadixBits;
    var r := lit.radix;
    assert ds[..|ds|] == ds;
    BitsOfRadix(r);
    PwOfPow(2, RadixBits(r), k - 1);
    PwAdd(r, k - 1, 1 - |ds|);
    assert k - 1 + (1 - |ds|) == k - |ds|;
    RMulAssoc(Num(ds, r) as real, Pw(r, k - 1), Pw(r, 1 - |ds|));
  }

  lemma PaddedValue(lit: Lit, ds: seq<nat>, k: int)
    requires lit.Number? && IsRadix(lit.radix) && |ds| >= 1
    requires lit == Number(lit.neg, lit.radix, Padded(ds, k), PointAt(k), 0, false, lit.end)
    ensures ValueOf(lit, |lit.digits|) == Shifted(Num(ds, lit.radix) as real, lit.radix, k - |ds|)
  {
    hide Num, Scaled, Shifted, Pow, Padded, Zeros;
    var r, f := lit.radix, lit.digits;
    assert f[..|f|] == f;
    PaddedNum(ds, k, r);
    if k > |ds| {
      TrailingPower(Num(ds, r), r, k - |ds|);
    } else {
      ScaledInt(Num(ds, r), r, k - |ds|);
    }
  }

  /** Padding zeros in front change nothing; padding behind multiplies. */
  lemma PaddedNum(ds: seq<nat>, k: int, r: nat)
    requires IsRadix(r) && |ds| >= 1
    ensures |Padded(ds, k)| == if k <= 0 then 1 - k + |ds| else if k > |ds| then k else |ds|
    ensures Num(Padded(ds, k), r) == if k > |ds| then Num(ds, r) * Pow(r, k - |ds|) else Num(ds, r)
  {
    hide Num, Pow;
    if k <= 0 {
      var z := [0] + Zeros(-k);
      NumConcat(z, ds, r);
      NumZeros(z, r);
    } else if k > |ds| {
      var j := k - |ds|;
      NumConcat(ds, Zeros(j), r);
      NumZeros(Zeros(j), r);
    }
  }

  lemma TrailingPower(v: nat, r: nat, j: nat)
    requires r >= 1
    ensures Scaled(v * Pow(r, j), 0, r, 0) == Shifted(v as real, r, j)
  {
    hide Pow, Pw, Scaled, Shifted;
    ScaledInt(v * Pow(r, j), r, 0);
    ShiftZero((v * Pow(r, j)) as real, r);
    ShiftNat(v, r, j);
  }

  lemma ShiftZero(x: real, r: nat)
    requires r >= 1
    ensures Shifted(x, r, 0) == x
  {}

  lemma ShiftNat(v: nat, r: nat, j: nat)
    requires r >= 1
    ensures Shifted(v as real, r, j) == (v * Pow(r, j)) as real
  {
    hide Pow, Pw;
    PwNat(r, j);
    CastProduct(v, Pow(r, j), Pw(r, j));
  }
}
