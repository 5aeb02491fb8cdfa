/** js_atod and js_atod_fast of src/dtoa.c from the text on. */
module Atod {
  import opened Powers
  import opened Rounding
  import opened Limbs
  import opened MpbModel
  import opened Tables
  import opened LogTables
  import opened Scaling
  import opened Doubles
  import opened DoubleBits
  import opened RoundedScaling
  import opened FreeLoop
  import opened Estimates
  import opened Literal
  import opened DigitReader
  import opened LiteralValue
  import opened Conversion

  // ----- the exponent -----

  /** The counter stops, and is flagged, before it could pass the 32-bit range. */
  const EXPONENT_STOP: nat := 214748363

  /** The exponent after its mark: a sign and at least one digit. */
  method ReadExponent(s: string, p: nat) returns (ok: bool, expn: int, expNeg: bool, overflow: bool, q: nat)
    ensures
      var (neg, q0) := Sign(s, p);
      var ds := ExpDigits(s, q0);
      && expNeg == neg && (ok <==> ToDigit(At(s, q0)) < 10)
      && (!ok ==> q == q0)
      && (ok ==> q == q0 + |ds|)
      && (ok && !overflow ==> expn == if neg then -(Num(ds, 10) as int) else Num(ds, 10))
      && (ok && overflow ==> Num(ds, 10) >= 10 * EXPONENT_STOP)
  {
    hide Num;
    expNeg, q, expn, overflow := false, p, 0, false;
    if At(s, q) == '+' {
      q := q + 1;
    } else if At(s, q) == '-' {
      expNeg := true;
      q := q + 1;
    }
    ghost var ds := ExpDigits(s, q);
    ghost var q0 := q;
    var c := ToDigit(At(s, q));
    if c >= 10 {
      return false, 0, expNeg, false, q;
    }
    ok := true;
    expn := c;
    q := q + 1;
    ghost var done := [c];
    NumOne(c);
    while true
      invariant ds == done + ExpDigits(s, q) && q == q0 + |done|
      invariant expn >= 0 && (!overflow ==> expn == Num(done, 10))
      invariant overflow ==> Num(done, 10) >= 10 * EXPONENT_STOP
      decreases |s| - q
    {
      c := ToDigit(At(s, q));
      if c >= 10 {
        assert done + [] == done;
        break;
      }
      assert done + ([c] + ExpDigits(s, q + 1)) == (done + [c]) + ExpDigits(s, q + 1);
      NumAppend(done, c, 10);
      if !overflow {
        if expn > EXPONENT_STOP {
          overflow := true;
        } else {
          expn := expn * 10 + c;
        }
      }
      done := done + [c];
      q := q + 1;
    }
    if expNeg {
      expn := -expn;
    }
  }

  lemma NumOne(c: nat)
    ensures Num([c], 10) == c
  {
    assert [c][..0] == [];
  }

  /** A literal whose exponent reaches the 32-bit range is shorter than what the exponent can outweigh. */
  ghost predicate FitsCounters(s: string, lit: Lit) {
    var far := lit.Number? && (lit.exponent >= 10 * EXPONENT_STOP || lit.exponent <= -10 * EXPONENT_STOP);
    far ==> |s| < if lit.binary then 0x1000_0000 else 0x4000_0000
  }

  /** A flagged exponent leaves the range of doubles whatever the digits. */
  lemma OverflowAgrees(lit: Lit)
    requires WellFormed(lit) && LeadingZeros(lit.digits) < |lit.digits|
    requires lit.binary ==> 1 <= RadixBits(lit.radix) <= 4 && |lit.digits| < 0x1000_0000
    requires |lit.digits| < 0x4000_0000
    ensures lit.exponent >= 10 * EXPONENT_STOP ==> NearestBits(lit) == Encode(lit.neg, (1, 1025))
    ensures lit.exponent <= -10 * EXPONENT_STOP ==> NearestBits(lit) == Encode(lit.neg, (0, 0))
  {
    hide LeadingZeros, NearestBits, MaxExponent, MinExponentNeg, RadixBits, Encode;
    if IsPow2Radix(lit.radix) {
      BitExitsAgree(lit);
      BitsOfRadix(lit.radix);
      FarBits(lit.exponent, lit.dot - LeadingZeros(lit.digits), RadixBits(lit.radix), lit.binary);
    } else {
      SmallBits(lit.radix);
      ExitsAgree(lit);
      BoundsSmall(lit.radix);
    }
  }

  lemma SmallBits(r: nat)
    requires !IsPow2Radix(r)
    ensures RadixBits(r) == 0
  {}

  lemma FarBits(x: int, d: int, b: nat, binary: bool)
    requires 1 <= b <= 5 && -0x4000_0000 < d < 0x4000_0000
    requires binary ==> b <= 4 && -0x1000_0000 < d < 0x1000_0000
    ensures x >= 10 * EXPONENT_STOP ==> (if binary then x else x * b) + d * b >= 1024 + b
    ensures x <= -10 * EXPONENT_STOP ==> (if binary then x else x * b) + d * b <= -1075
  {
    match b
    case 1 =>
    case 2 =>
    case 3 =>
    case 4 =>
    case 5 =>
  }

  lemma BoundsSmall(r: nat)
    requires NeedsBracket(r)
    ensures MaxExponent(r) <= 1060 && MinExponentNeg(r) <= 1110
  {
    hide Pow, MaxExponent, MinExponentNeg;
    ExponentTables(r);
    AtMostBits(r, MaxExponent(r), 1060);
    AtMostBits(r, MinExponentNeg(r), 1110);
  }

  lemma AtMostBits(r: nat, k: nat, b: nat)
    requires r >= 2 && Pow(r, k) <= Pow(2, b)
    ensures k <= b
  {
    hide Pow;
    PowBaseMono(2, r, k);
    PowPositive(2, b);
    PowUnfold(2, b);
    if k > b { PowMono(2, b + 1, k); }
  }

  // ----- after the prefix -----

  lemma BodyWellFormed(s: string, p0: nat, start: nat, r: nat, intOnly: bool, neg: bool)
    requires IsRadix(r) && p0 <= |s|
    ensures
      var lit := ParseBody(s, p0, start, r, intOnly, neg);
      lit.Number? ==> WellFormed(lit) && |lit.digits| <= |s| && (lit.binary ==> 1 <= RadixBits(r) <= 4)
  {
    hide Scan;
  }

  /** The number of digits before the point. */
  function DotOf(b: Body): (d: int) {
    if b.dot >= 0 then b.dot else |b.digits|
  }

  /** The digits of js_atod and the sticky low bit; `fast` is false in a build without the fast paths. */
  method Prepare(tmp: Mpb, s: string, p0: nat, start: nat, r: nat, intOnly: bool, fast: bool)
    returns (p: nat, count: nat, off: int, fastOk: bool, fastM: Limb)
    requires tmp.Valid() && tmp.tab.Length == CAPACITY && IsRadix(r)
    modifies tmp, tmp.tab
    ensures tmp.Valid() && tmp.Norm()
    ensures
      var b := Scan(s, p0, start, r, intOnly, false);
      && p == b.end && count == |Kept(b.digits, r)| && DotOf(b) >= 0
      && (count != 0 ==> Prepared(b.digits, DotOf(b), r, tmp.Value(), count, off, fastOk, fastM))
  {
    hide Scan, Num, LeadingZeros, Kept, AtodMaxDigits, Pow, RadixBits, Mpb.Value, Prepared;
    var pos, sigPos, dot, extra;
    p, pos, sigPos, dot, count, extra, fastOk, fastM := ReadDigits(tmp, s, p0, start, r, intOnly, fast);
    ghost var b := Scan(s, p0, start, r, intOnly, false);
    ghost var v := tmp.Value();
    off := 0;
    if count != 0 {
      if dot < 0 {
        dot := pos;
      }
      off := sigPos + count - dot;
    }
    if RadixBits(r) != 0 && extra != 0 {
      SetLowBit(tmp);
    }
    if count != 0 {
      PreparedNow(b.digits, DotOf(b), r, v, tmp.Value(), count, extra, off, fastOk, fastM);
    }
  }

  lemma PreparedNow(ds: seq<nat>, dot: nat, r: nat, v: nat, t: nat, count: nat, extra: nat, off: int, fastOk: bool,
                    fastM: nat)
    requires IsRadix(r) && AreDigits(ds, r)
    requires
      var z, kept := LeadingZeros(ds), Kept(ds, r);
      && count == |kept| && off == z + count - dot
      && (extra == 0 <==> forall i :: z + count <= i < |ds| ==> ds[i] == 0)
      && (fastOk ==> r == 10 && fastM == Num(kept, 10))
      && (!fastOk ==> v == Num(kept, r))
    requires t == if RadixBits(r) != 0 && extra != 0 then v + 1 - v % 2 else v
    ensures Prepared(ds, dot, r, t, count, off, fastOk, fastM)
  {
    hide Num, LeadingZeros, AtodMaxDigits, Pow;
    KeptDigits(r);
    KeptSticky(ds, r);
  }

  /** js_atod after sign and prefix. */
  method AtodBody(tmp: Mpb, s: string, p0: nat, start: nat, r: nat, intOnly: bool, neg: bool, fast: bool)
    returns (a: nat, end: nat)
    requires tmp.Valid() && tmp.tab.Length == CAPACITY && IsRadix(r) && start <= p0 <= |s|
    requires FitsCounters(s, ParseBody(s, p0, start, r, intOnly, neg))
    modifies tmp, tmp.tab
    ensures tmp.Valid()
    ensures
      var lit := ParseBody(s, p0, start, r, intOnly, neg);
      end == lit.end && (lit.Number? ==> IsRadix(lit.radix)) && a == NearestBits(lit)
  {
    hide Scan, Num, LeadingZeros, Kept, Pow, RadixBits, Encode, ExpDigits, Mpb.Value, Prepared, NearestBits, WellFormed;
    ghost var lit := ParseBody(s, p0, start, r, intOnly, neg);
    BodyWellFormed(s, p0, start, r, intOnly, neg);
    FailBits(lit);
    var p, count, off, fastOk, fastM := Prepare(tmp, s, p0, start, r, intOnly, fast);
    CountPositive(Scan(s, p0, start, r, intOnly, false).digits, r);
    var expn, binary := 0, false;
    if !intOnly && ExpMark(At(s, p), r) && p > start {
      binary := At(s, p) == 'p' || At(s, p) == 'P';
      var ok, x, expNeg, overflow, q := ReadExponent(s, p + 1);
      p := q;
      if !ok {
        return NAN, p;
      }
      expn := x;
      if count != 0 && overflow {
        OverflowAgrees(lit);
        a := Pack(if expNeg then 0 else 1, if expNeg then 0 else 1025, neg);
        return a, p;
      }
    }
    if p == start {
      return NAN, p;
    }
    end := p;
    if count == 0 {
      ZeroBits(lit);
      a := Pack(0, 0, neg);
    } else {
      a := Convert(tmp, r, neg, expn, binary, count, off, fastOk, fastM, lit);
    }
  }

  lemma FailBits(lit: Lit)
    ensures lit.Number? && WellFormed(lit) ==> IsRadix(lit.radix)
    ensures lit.Fail? ==> NearestBits(lit) == NAN
  {}

  lemma CountPositive(ds: seq<nat>, r: nat)
    requires IsRadix(r)
    ensures |Kept(ds, r)| == 0 <==> LeadingZeros(ds) == |ds|
  {
    hide LeadingZeros, AtodMaxDigits;
    KeptDigits(r);
  }

  lemma ZeroBits(lit: Lit)
    requires WellFormed(lit) && LeadingZeros(lit.digits) == |lit.digits|
    ensures NearestBits(lit) == Encode(lit.neg, (0, 0))
  {
    hide ToDouble, ValueOf, Counted, Encode;
    ValueZero(lit, Counted(lit));
    ZeroIs(ValueOf(lit, Counted(lit)));
  }

  // ----- the whole text -----

  /** js_atod without its first fast path. */
  method AtodSlow(s: string, radix: nat, intOnly: bool, binOct: bool, fast: bool) returns (a: nat, end: nat)
    requires radix == 0 || IsRadix(radix)
    requires FitsCounters(s, Parse(s, radix, intOnly, binOct))
    ensures
      var lit := Parse(s, radix, intOnly, binOct);
      end == lit.end && (lit.Number? ==> IsRadix(lit.radix)) && a == NearestBits(lit)
  {
    hide ParseBody, Encode, NearestBits, WellFormed;
    var p, neg := 0, false;
    if At(s, p) == '+' {
      p := p + 1;
    } else if At(s, p) == '-' {
      neg := true;
      p := p + 1;
    }
    var start, r := p, radix;
    ghost var lit := Parse(s, radix, intOnly, binOct);
    FailBits(lit);
    InfiniteBits(lit);
    if At(s, p) == '0' {
      var c := At(s, p + 1);
      if (c == 'x' || c == 'X') && (radix == 0 || radix == 16) {
        p, r := p + 2, 16;
      } else if (c == 'o' || c == 'O') && radix == 0 && binOct {
        p, r := p + 2, 8;
      } else if (c == 'b' || c == 'B') && radix == 0 && binOct {
        p, r := p + 2, 2;
      }
      if p > start && ToDigit(At(s, p)) >= r {
        return NAN, p;
      }
    } else if !intOnly && StartsWith(s, p, "Infinity") {
      a := Pack(1, 1025, neg);
      return a, p + 8;
    }
    if r == 0 {
      r := 10;
    }
    var tmp := new Mpb(CAPACITY);
    a, end := AtodBody(tmp, s, p, start, r, intOnly, neg, fast);
  }

  lemma InfiniteBits(lit: Lit)
    ensures lit.Infinite? ==> NearestBits(lit) == Encode(lit.neg, (1, 1025))
  {}

  // ----- js_atod_fast -----

  /** The digits so far, and the number they make. */
  ghost predicate Short(done: seq<nat>, m: nat) {
    |done| <= 19 && AreDigits(done, 10) && m == Num(done, 10)
  }

  lemma ShortPush(done: seq<nat>, m: nat, c: nat)
    requires Short(done, m) && |done| < 19 && c < 10
    ensures Short(done + [c], m * 10 + c) && m * 10 + c < BASE
  {
    hide Num, Pow;
    NumAppend(done, c, 10);
    NumBound(done + [c], 10);
    PowMono(10, |done| + 1, 19);
    SquareIsPow(10, 19);
    assert Square(10, 19) == 10000000000000000000;
  }

  predicate IsDecimal(c: char) {
    '0' <= c <= '9'
  }

  /** One run of decimal digits, or too many of them. */
  method FastDigits(s: string, ghost start: nat, ghost intOnly: bool, p0: nat, m0: Limb, ndig0: nat, ghost dot: int,
                    ghost done0: seq<nat>)
    returns (ok: bool, p: nat, m: Limb, ndig: nat, ghost done: seq<nat>)
    requires Progress(s, start, start, 10, intOnly, done0, dot, p0) && Short(done0, m0) && ndig0 == |done0|
    ensures ok ==> Progress(s, start, start, 10, intOnly, done, dot, p) && Short(done, m) && ndig == |done|
    ensures ok ==> !IsDecimal(At(s, p)) && p - p0 == ndig - ndig0 >= 0
    ensures ok ==> p == p0 || IsDecimal(At(s, p0))
    ensures !ok ==> |Scan(s, start, start, 10, intOnly, false).digits| > 19
  {
    hide Progress, Short, Scan;
    ok, p, m, ndig, done := true, p0, m0, ndig0, done0;
    ShortBounds(done, m);
    while IsDecimal(At(s, p))
      invariant Progress(s, start, start, 10, intOnly, done, dot, p) && Short(done, m) && ndig == |done| <= 19
      invariant p - p0 == ndig - ndig0 >= 0 && (p == p0 || IsDecimal(At(s, p0)))
      decreases |s| - p
    {
      if ndig >= 19 {
        ProgressMore(s, start, intOnly, done, dot, p);
        return false, p, m, ndig, done;
      }
      var c := ToDigit(At(s, p));
      ProgressDigit(s, start, start, 10, intOnly, done, dot, p);
      ShortPush(done, m, c);
      m, ndig, p, done := m * 10 + c, ndig + 1, p + 1, done + [c];
    }
  }

  /** A digit still to come counts. */
  lemma ProgressMore(s: string, start: nat, intOnly: bool, done: seq<nat>, dot: int, p: nat)
    requires Progress(s, start, start, 10, intOnly, done, dot, p) && IsDecimal(At(s, p))
    ensures |Scan(s, start, start, 10, intOnly, false).digits| > |done|
  {
    var rest := Scan(s, p, start, 10, intOnly, dot >= 0);
    assert |rest.digits| >= 1;
  }

  lemma ShortBounds(done: seq<nat>, m: nat)
    requires Short(done, m)
    ensures |done| <= 19 && m == Num(done, 10)
  {}

  /** The exponent of js_atod_fast: it stops growing past 1000. */
  method FastExponent(s: string, q0: nat) returns (e: nat, q: nat)
    requires IsDecimal(At(s, q0))
    ensures q == q0 + |ExpDigits(s, q0)|
    ensures e == Num(ExpDigits(s, q0), 10) || (e > 1000 && Num(ExpDigits(s, q0), 10) > 1000)
  {
    hide Num;
    e, q := 0, q0;
    ghost var ds, done := ExpDigits(s, q0), [];
    assert Num([], 10) == 0 by { NumZeros([], 10); }
    assert done + ds == ds;
    while IsDecimal(At(s, q))
      invariant ds == done + ExpDigits(s, q) && q == q0 + |done|
      invariant e == Num(done, 10) || (e > 1000 && Num(done, 10) > 1000)
      decreases |s| - q
    {
      var c := ToDigit(At(s, q));
      assert done + ([c] + ExpDigits(s, q + 1)) == (done + [c]) + ExpDigits(s, q + 1);
      NumAppend(done, c, 10);
      if e <= 1000 {
        e := e * 10 + c;
      }
      done := done + [c];
      q := q + 1;
    }
    assert done + [] == done;
  }

  /** The digits of js_atod_fast, before and after a point: at least one and at most 19. */
  method FastMantissa(s: string, start: nat, intOnly: bool) returns (ok: bool, p: nat, m: Limb, frac: nat)
    ensures ok <==> 1 <= |Scan(s, start, start, 10, intOnly, false).digits| <= 19
    ensures ok ==>
      var b := Scan(s, start, start, 10, intOnly, false);
      && p == b.end > start && b.digits != [] && Short(b.digits, m) && frac == |b.digits| - DotOf(b)
  {
    hide Progress, Short, Scan, Num;
    ok, p, m, frac := false, start, 0, 0;
    ProgressStart(s, start, start, 10, intOnly);
    ShortNone();
    var good, ndig;
    ghost var done: seq<nat>;
    ghost var dot: int := -1;
    good, p, m, ndig, done := FastDigits(s, start, intOnly, start, 0, 0, -1, []);
    if !good {
      return;
    }
    if !intOnly && At(s, p) == '.' {
      if ndig == 0 && !IsDecimal(At(s, p + 1)) {
        ProgressEnd(s, start, start, 10, intOnly, done, -1, p);
        return;
      }
      ProgressDot(s, start, start, 10, intOnly, done, -1, p);
      dot := ndig;
      var before := ndig;
      good, p, m, ndig, done := FastDigits(s, start, intOnly, p + 1, m, ndig, dot, done);
      if !good {
        return;
      }
      frac := ndig - before;
    }
    ProgressEnd(s, start, start, 10, intOnly, done, dot, p);
    if ndig == 0 {
      return;
    }
    ShortBounds(done, m);
    ok := true;
  }

  /** The optional exponent of js_atod_fast. */
  method FastTail(s: string, p: nat, intOnly: bool) returns (ok: bool, expn: int, end: nat)
    ensures intOnly || !ExpMark(At(s, p), 10) ==> ok && expn == 0 && end == p
    ensures !intOnly && ExpMark(At(s, p), 10) ==>
      var (neg, q) := Sign(s, p + 1);
      var n := Num(ExpDigits(s, q), 10);
      && (ok <==> ToDigit(At(s, q)) < 10) && (ok ==> end == q + |ExpDigits(s, q)|)
      && (ok ==> expn == (if neg then -(n as int) else n) || (n > 1000 && if neg then expn < -1000 else expn > 1000))
    ensures ExpMark(At(s, p), 10) ==> At(s, p) != 'p' && At(s, p) != 'P'
  {
    hide Num, ExpDigits, ToDigit, ExpMark;
    ok, expn, end := true, 0, p;
    TenMarks(At(s, p));
    if !intOnly && (At(s, p) == 'e' || At(s, p) == 'E') {
      var q, expNeg := p + 1, false;
      if At(s, q) == '+' {
        q := q + 1;
      } else if At(s, q) == '-' {
        expNeg := true;
        q := q + 1;
      }
      TenMarks(At(s, q));
      if !IsDecimal(At(s, q)) {
        return false, 0, q;
      }
      var e;
      e, end := FastExponent(s, q);
      expn := if expNeg then -(e as int) else e;
    }
  }

  /**
    * The texts js_atod_fast answers for: not a zero with a digit or letter behind it, 1 to 19 digits that make a number
    * below 2^53, and a power of ten within 22 either way.
    */
  ghost predicate Easy(s: string, lit: Lit) {
    var start := if At(s, 0) == '+' || At(s, 0) == '-' then 1 else 0;
    && !(At(s, start) == '0' && ToDigit(At(s, start + 1)) < 36)
    && lit.Number? && 1 <= |lit.digits| <= 19 && Num(lit.digits, 10) < TWO53
    && -22 <= lit.exponent - (|lit.digits| - lit.dot) <= 22
  }

  /** js_atod_fast: at most 19 digits, a small exponent and one exact operation; otherwise it declines. */
  method AtodFast(s: string, intOnly: bool, ghost radix: nat, ghost binOct: bool) returns (ok: bool, a: nat, end: nat)
    requires radix == 0 || radix == 10
    ensures ok <==> Easy(s, Parse(s, radix, intOnly, binOct))
    ensures ok ==>
      var lit := Parse(s, radix, intOnly, binOct);
      lit.Number? && IsRadix(lit.radix) && end == lit.end && a == NearestBits(lit)
  {
    hide Short, Scan, Num, NearestBits, Encode, ToDouble, Scaled, ExpDigits, Parse, ToDigit, ExpMark;
    hide At;
    ok, a, end := false, 0, 0;
    var p, neg := 0, false;
    if At(s, p) == '+' {
      p := p + 1;
    } else if At(s, p) == '-' {
      neg := true;
      p := p + 1;
    }
    if At(s, p) == '0' && ToDigit(At(s, p + 1)) < 36 {
      return;
    }
    ghost var start := p;
    var good, m, frac;
    good, p, m, frac := FastMantissa(s, p, intOnly);
    if !good {
      NoDigits(s, start, neg, radix, intOnly, binOct);
      return;
    }
    NoPrefix(s, start, neg, radix, intOnly, binOct);
    ghost var ds := Scan(s, start, start, 10, intOnly, false).digits;
    ShortBounds(ds, m);
    var expn;
    good, expn, p := FastTail(s, p, intOnly);
    if !good {
      return;
    }
    expn := expn - frac;
    if m >= TWO53 || expn < -22 || expn > 22 {
      return;
    }
    var d := FastScale(m, expn);
    ShortValue(Parse(s, radix, intOnly, binOct), ds, m, expn);
    ok, a, end := true, Encode(neg, d), p;
  }

  lemma TenMarks(c: char)
    ensures IsDecimal(c) <==> ToDigit(c) < 10
    ensures ExpMark(c, 10) <==> c == 'e' || c == 'E'
  {}

  lemma ShortNone()
    ensures Short([], 0)
  {}

  /** A text without digits is no number; with more than nineteen it is not short. */
  lemma NoDigits(s: string, start: nat, neg: bool, radix: nat, intOnly: bool, binOct: bool)
    requires (radix == 0 || radix == 10) && Sign(s, 0) == (neg, start)
    requires At(s, start) == '0' ==> ToDigit(At(s, start + 1)) >= 36
    requires !(1 <= |Scan(s, start, start, 10, intOnly, false).digits| <= 19)
    ensures !Easy(s, Parse(s, radix, intOnly, binOct))
  {
    hide Num;
    var b := Scan(s, start, start, 10, intOnly, false);
    if b.digits != [] { NoPrefix(s, start, neg, radix, intOnly, binOct); }
  }

  /** A text that starts with a digit or a point has no prefix and is not the word Infinity. */
  lemma NoPrefix(s: string, start: nat, neg: bool, radix: nat, intOnly: bool, binOct: bool)
    requires (radix == 0 || radix == 10) && Sign(s, 0) == (neg, start)
    requires At(s, start) == '0' ==> ToDigit(At(s, start + 1)) >= 36
    requires Scan(s, start, start, 10, intOnly, false).digits != []
    ensures Parse(s, radix, intOnly, binOct) == ParseBody(s, start, start, 10, intOnly, neg)
  {
    if At(s, start) != 'I' && start + 8 <= |s| {
      assert s[start..start + 8][0] == s[start];
    }
  }

  /** Nineteen digits are all kept. */
  lemma ShortValue(lit: Lit, done: seq<nat>, m: nat, k: int)
    requires lit.Number? && lit.radix == 10 && lit.digits == done && !lit.binary
    requires Short(done, m) && k == RadixScale(lit, |done|)
    ensures NearestBits(lit) == Encode(lit.neg, ToDouble(NearestEven, Scaled(m, 0, 10, k)))
  {
    hide Num, Scaled, ToDouble, Encode, LeadingZeros, AtodMaxDigits;
    KeptTen();
    assert Counted(lit) == |done|;
    assert done[..|done|] == done;
  }

  /** js_atod: the nearest double of the literal and the position after it, with or without the fast paths. */
  method Read(s: string, radix: nat, intOnly: bool, binOct: bool, fast: bool) returns (a: nat, end: nat)
    requires radix == 0 || IsRadix(radix)
    requires FitsCounters(s, Parse(s, radix, intOnly, binOct))
    ensures
      var lit := Parse(s, radix, intOnly, binOct);
      end == lit.end && (lit.Number? ==> IsRadix(lit.radix)) && a == NearestBits(lit)
  {
    hide Parse, NearestBits;
    if fast && (radix == 0 || radix == 10) {
      var ok;
      ok, a, end := AtodFast(s, intOnly, radix, binOct);
      if ok {
        return;
      }
    }
    a, end := AtodSlow(s, radix, intOnly, binOct, fast);
  }
}
