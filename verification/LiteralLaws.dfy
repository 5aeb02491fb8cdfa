/** What js_atod of src/dtoa.c reads, told from the parts a text is put together from. */
module LiteralLaws {
  import opened Powers
  import opened Rounding
  import opened Tables
  import opened Doubles
  import opened DoubleBits
  import opened RoundedScaling
  import opened Estimates
  import opened Literal
  import opened LiteralValue
  import opened DigitText
  import opened LayoutReads

  // ----- characters -----

  const DIGITS := "0123456789abcdefghijklmnopqrstuvwxyz"
  const CAPITALS := "0123456789ABCDEFGHIJKLMNOPQRSTUVWXYZ"

  lemma LowCodes(d: nat)
    requires d < 18
    ensures DIGITS[d] as int == if d < 10 then 48 + d else 87 + d
    ensures CAPITALS[d] as int == if d < 10 then 48 + d else 55 + d
  {}

  lemma HighCodes(d: nat)
    requires 18 <= d < 36
    ensures DIGITS[d] as int == 87 + d && CAPITALS[d] as int == 55 + d
  {}

  /** The digits in order, small and capital. */
  lemma DigitTable(d: nat)
    requires d < 36
    ensures DigitChar(d) == DIGITS[d] && ToDigit(DIGITS[d]) == d && ToDigit(CAPITALS[d]) == d
  {
    if d < 18 { LowCodes(d); } else { HighCodes(d); }
    Codes(d, DIGITS[d], CAPITALS[d]);
  }

  lemma Codes(d: nat, small: char, capital: char)
    requires d < 36 && small as int == (if d < 10 then 48 + d else 87 + d)
    requires capital as int == if d < 10 then 48 + d else 55 + d
    ensures DigitChar(d) == small && ToDigit(small) == d && ToDigit(capital) == d
  {}

  /** No other character is a digit. */
  lemma OnlyDigits(c: char)
    requires ToDigit(c) < 36
    ensures c == DIGITS[ToDigit(c)] || c == CAPITALS[ToDigit(c)]
  {
    var d := ToDigit(c);
    if d < 18 { LowCodes(d); } else { HighCodes(d); }
    OneOf(c, DIGITS[d], CAPITALS[d]);
  }

  lemma OneOf(c: char, small: char, capital: char)
    requires
      var d := ToDigit(c);
      && d < 36 && small as int == (if d < 10 then 48 + d else 87 + d)
      && capital as int == if d < 10 then 48 + d else 55 + d
    ensures c == small || c == capital
  {}

  // ----- the parts of a text -----

  predicate IsSign(t: string) {
    t == "" || t == "+" || t == "-"
  }

  /** The characters that introduce an exponent: of the radix, or of two for p. */
  predicate IsMark(c: char, r: nat) {
    if r == 10 then c == 'e' || c == 'E'
    else c == '@' || ((r == 2 || r == 4 || r == 8 || r == 16) && (c == 'p' || c == 'P'))
  }

  lemma MarkMeans(c: char, r: nat)
    requires IsRadix(r)
    ensures ExpMark(c, r) <==> IsMark(c, r)
    ensures IsMark(c, r) ==> ToDigit(c) >= r && c != '.'
  {}

  /** Digits before and after an optional point. */
  datatype Mantissa = Mantissa(whole: seq<nat>, point: bool, fraction: seq<nat>) {
    function Digits(): (ds: seq<nat>) {
      whole + fraction
    }

    ghost predicate Valid(r: nat) {
      && AreDigits(whole, r) && AreDigits(fraction, r) && AreDigits(whole, 36) && AreDigits(fraction, 36)
      && (point || fraction == []) && (whole != [] || fraction != [])
    }

    function Text(): (t: string)
      requires AreDigits(whole, 36) && AreDigits(fraction, 36)
    {
      Chars(whole) + (if point then "." else "") + Chars(fraction)
    }
  }

  /** An exponent: its mark, its sign and its decimal digits. */
  datatype Exponent = Exponent(mark: char, sign: string, digits: seq<nat>) {
    ghost predicate Valid(r: nat) {
      IsMark(mark, r) && IsSign(sign) && digits != [] && AreDigits(digits, 10) && AreDigits(digits, 36)
    }

    function Text(): (t: string)
      requires AreDigits(digits, 36)
    {
      [mark] + sign + Chars(digits)
    }

    function Value(): int {
      if sign == "-" then -(Num(digits, 10) as int) else Num(digits, 10)
    }

    predicate Binary() {
      mark == 'p' || mark == 'P'
    }
  }

  /** What may follow a mantissa without becoming part of it. */
  predicate EndsMantissa(rest: string, m: Mantissa, r: nat, intOnly: bool) {
    ToDigit(At(rest, 0)) >= r && (At(rest, 0) == '.' ==> m.point || intOnly)
  }

  // ----- scanning the parts -----

  lemma {:induction false} DigitsScan(s: string, p: nat, start: nat, r: nat, intOnly: bool, seen: bool, ds: seq<nat>,
                                      rest: string)
    requires IsRadix(r) && AreDigits(ds, r) && AreDigits(ds, 36) && p <= |s| && s[p..] == Chars(ds) + rest
    ensures p + |ds| <= |s| && s[p + |ds|..] == rest
    ensures Scan(s, p, start, r, intOnly, seen) == Prepend(ds, Scan(s, p + |ds|, start, r, intOnly, seen))
    decreases |ds|
  {
    hide Chars, Scan, Prepend;
    var whole := Scan(s, p + |ds|, start, r, intOnly, seen);
    PrependMore([], [], whole);
    if ds == [] {
      assert Chars(ds) + rest == rest;
    } else {
      StepText(s, p, ds, rest);
      StepScan(s, p, start, r, intOnly, seen, ds[0]);
      DigitsScan(s, p + 1, start, r, intOnly, seen, ds[1..], rest);
      PrependMore([ds[0]], ds[1..], whole);
      assert [ds[0]] + ds[1..] == ds;
    }
  }

  lemma StepText(s: string, p: nat, ds: seq<nat>, rest: string)
    requires AreDigits(ds, 36) && ds != [] && p <= |s| && s[p..] == Chars(ds) + rest
    ensures p < |s| && s[p] == DigitChar(ds[0]) && s[p + 1..] == Chars(ds[1..]) + rest
  {
    var t := s[p..];
    assert |t| == |s| - p;
    assert s[p] == t[0] && s[p + 1..] == t[1..];
    assert Chars(ds)[1..] == Chars(ds[1..]);
  }

  lemma StepScan(s: string, p: nat, start: nat, r: nat, intOnly: bool, seen: bool, d: nat)
    requires IsRadix(r) && d < r && At(s, p) == DigitChar(d)
    ensures Scan(s, p, start, r, intOnly, seen) == Prepend([d], Scan(s, p + 1, start, r, intOnly, seen))
  {}

  lemma Suffix(s: string, p: nat, a: string, b: string)
    requires p <= |s| && s[p..] == a + b
    ensures p + |a| <= |s| && s[p + |a|..] == b && At(s, p + |a|) == At(b, 0) && At(s, p + |a| + 1) == At(b, 1)
    ensures a != [] ==> At(s, p) == a[0]
  {
    var t := s[p..];
    assert |t| == |s| - p;
    assert s[p + |a|..] == t[|a|..];
    if b != [] { assert s[p + |a|] == t[|a|]; }
    if |b| > 1 { assert s[p + |a| + 1] == t[|a| + 1]; }
    if a != [] { assert s[p] == t[0]; }
  }

  lemma PointScan(s: string, p: nat, start: nat, r: nat)
    requires IsRadix(r) && At(s, p) == '.' && (p > start || ToDigit(At(s, p + 1)) < r)
    ensures
      var b := Scan(s, p + 1, start, r, false, true);
      Scan(s, p, start, r, false, false) == Body(b.digits, 0, b.end)
  {}

  lemma EndScan(s: string, q: nat, start: nat, r: nat, intOnly: bool, seen: bool)
    requires IsRadix(r) && ToDigit(At(s, q)) >= r && (At(s, q) == '.' ==> seen || intOnly)
    ensures Scan(s, q, start, r, intOnly, seen) == Body([], -1, q)
  {}

  /** A mantissa is scanned as its digits, with the point where it stands. */
  lemma MantissaReads(s: string, p: nat, start: nat, r: nat, intOnly: bool, m: Mantissa, rest: string)
    requires IsRadix(r) && m.Valid(r) && (m.point ==> !intOnly) && start <= p <= |s| && s[p..] == m.Text() + rest
    requires EndsMantissa(rest, m, r, intOnly)
    ensures
      var q := p + |m.Text()|;
      && q <= |s| && s[q..] == rest && At(s, q) == At(rest, 0) && q > start
      && Scan(s, p, start, r, intOnly, false) == Body(m.Digits(), if m.point then |m.whole| else -1, q)
  {
    hide Chars, Scan, Mantissa.Text;
    Suffix(s, p, m.Text(), rest);
    TextParts(m);
    if m.point {
      PointedReads(s, p, start, r, m, rest);
    } else {
      var q := p + |m.whole|;
      DigitsScan(s, p, start, r, intOnly, false, m.whole, rest);
      EndScan(s, q, start, r, intOnly, false);
      assert m.whole + [] == m.Digits();
    }
  }

  lemma TextParts(m: Mantissa)
    requires AreDigits(m.whole, 36) && AreDigits(m.fraction, 36)
    ensures |m.Text()| == |m.whole| + (if m.point then 1 else 0) + |m.fraction|
    ensures m.point ==> m.Text() == Chars(m.whole) + ("." + Chars(m.fraction))
    ensures !m.point && m.fraction == [] ==> m.Text() == Chars(m.whole)
  {}

  lemma PointedReads(s: string, p: nat, start: nat, r: nat, m: Mantissa, rest: string)
    requires IsRadix(r) && m.Valid(r) && m.point && start <= p <= |s|
    requires s[p..] == (Chars(m.whole) + ("." + Chars(m.fraction))) + rest
    requires ToDigit(At(rest, 0)) >= r
    ensures Scan(s, p, start, r, false, false) == Body(m.Digits(), |m.whole|, p + |m.whole| + 1 + |m.fraction|)
  {
    hide Chars, Scan, ToDigit, Prepend, At;
    var dot, tail := p + |m.whole|, Chars(m.fraction) + rest;
    Joined(Chars(m.whole), Chars(m.fraction), rest);
    DigitsScan(s, p, start, r, false, false, m.whole, "." + tail);
    Suffix(s, dot, ".", tail);
    FirstOfFraction(m, rest, r);
    AtStart(".", tail);
    PointScan(s, dot, start, r);
    DigitsScan(s, dot + 1, start, r, false, true, m.fraction, rest);
    Suffix(s, dot + 1, Chars(m.fraction), rest);
    EndScan(s, dot + 1 + |m.fraction|, start, r, false, true);
    AroundPoint(m.whole, m.fraction, dot + 1 + |m.fraction|);
  }

  lemma Joined(a: string, b: string, rest: string)
    ensures (a + ("." + b)) + rest == a + ("." + (b + rest))
  {}

  lemma AtStart(a: string, b: string)
    requires a != []
    ensures At(a + b, 0) == a[0]
  {}

  lemma AroundPoint(a: seq<nat>, b: seq<nat>, end: nat)
    ensures
      var c := Prepend(b, Body([], -1, end));
      Prepend(a, Body(c.digits, 0, c.end)) == Body(a + b, |a|, end)
  {
    assert b + [] == b;
  }

  lemma FirstOfFraction(m: Mantissa, rest: string, r: nat)
    requires m.Valid(r)
    ensures m.whole == [] ==> ToDigit(At(Chars(m.fraction) + rest, 0)) < r
  {}

  lemma {:induction false} ExponentScan(s: string, q: nat, ds: seq<nat>, rest: string)
    requires AreDigits(ds, 10) && AreDigits(ds, 36) && q <= |s| && s[q..] == Chars(ds) + rest
    requires ToDigit(At(rest, 0)) >= 10
    ensures ExpDigits(s, q) == ds
    decreases |ds|
  {
    hide Chars;
    if ds == [] {
      assert Chars(ds) + rest == rest;
      Suffix(s, q, [], rest);
    } else {
      StepText(s, q, ds, rest);
      ExponentScan(s, q + 1, ds[1..], rest);
    }
  }

  lemma SignScan(s: string, p: nat, sign: string, rest: string)
    requires IsSign(sign) && p <= |s| && s[p..] == sign + rest
    requires sign == "" ==> At(rest, 0) != '+' && At(rest, 0) != '-'
    ensures Sign(s, p) == (sign == "-", p + |sign|) && p + |sign| <= |s| && s[p + |sign|..] == rest
    ensures At(s, p + |sign|) == At(rest, 0) && At(s, p + |sign| + 1) == At(rest, 1)
  {
    Suffix(s, p, sign, rest);
  }

  // ----- bodies -----

  lemma BodyReads(s: string, p: nat, start: nat, r: nat, intOnly: bool, neg: bool, m: Mantissa, rest: string)
    requires IsRadix(r) && m.Valid(r) && (m.point ==> !intOnly) && start <= p <= |s| && s[p..] == m.Text() + rest
    requires EndsMantissa(rest, m, r, intOnly) && (intOnly || !IsMark(At(rest, 0), r))
    ensures ParseBody(s, p, start, r, intOnly, neg)
         == Number(neg, r, m.Digits(), |m.whole|, 0, false, p + |m.Text()|)
  {
    hide Scan, Mantissa.Text, ExpMark, IsMark;
    MantissaReads(s, p, start, r, intOnly, m, rest);
    MarkMeans(At(rest, 0), r);
    assert !m.point ==> m.Digits() == m.whole;
  }

  lemma ExponentBodyReads(s: string, p: nat, start: nat, r: nat, neg: bool, m: Mantissa, x: Exponent, rest: string)
    requires IsRadix(r) && m.Valid(r) && x.Valid(r) && start <= p <= |s| && s[p..] == m.Text() + (x.Text() + rest)
    requires ToDigit(At(rest, 0)) >= 10
    ensures ParseBody(s, p, start, r, false, neg)
         == Number(neg, r, m.Digits(), |m.whole|, x.Value(), x.Binary(), p + |m.Text()| + |x.Text()|)
  {
    hide Scan, Mantissa.Text, ExpMark, IsMark, Exponent.Text, ExpDigits, Num, At, Sign, ToDigit;
    MarkMeans(x.mark, r);
    TailStart(x, rest);
    MantissaReads(s, p, start, r, false, m, x.Text() + rest);
    ExponentReads(s, p + |m.Text()|, x, r, rest);
    assert !m.point ==> m.Digits() == m.whole;
  }

  lemma TailStart(x: Exponent, rest: string)
    requires AreDigits(x.digits, 36)
    ensures At(x.Text() + rest, 0) == x.mark && |x.Text()| == 1 + |x.sign| + |x.digits|
    ensures x.Text() + rest == [x.mark] + (x.sign + (Chars(x.digits) + rest))
  {}

  lemma DigitStart(ds: seq<nat>, rest: string)
    requires ds != [] && AreDigits(ds, 36)
    ensures
      var c := At(Chars(ds) + rest, 0);
      ToDigit(c) == ds[0] && c != '+' && c != '-' && c != 'I' && c != '.'
  {}

  lemma ExponentReads(s: string, q: nat, x: Exponent, r: nat, rest: string)
    requires x.Valid(r) && q <= |s| && s[q..] == x.Text() + rest && ToDigit(At(rest, 0)) >= 10
    ensures
      var (neg, p) := Sign(s, q + 1);
      && At(s, q) == x.mark && neg == (x.sign == "-") && p == q + 1 + |x.sign| && ToDigit(At(s, p)) < 10
      && ExpDigits(s, p) == x.digits && p + |x.digits| == q + |x.Text()|
  {
    hide Chars, ExpDigits, Sign, IsMark, ToDigit, Exponent.Text;
    TailStart(x, rest);
    Suffix(s, q, [x.mark], x.sign + (Chars(x.digits) + rest));
    DigitStart(x.digits, rest);
    SignScan(s, q + 1, x.sign, Chars(x.digits) + rest);
    ExponentScan(s, q + 1 + |x.sign|, x.digits, rest);
  }

  lemma ExponentBodyFails(s: string, p: nat, start: nat, r: nat, neg: bool, m: Mantissa, mark: char, sign: string,
                          rest: string)
    requires IsRadix(r) && m.Valid(r) && IsMark(mark, r) && IsSign(sign) && start <= p <= |s|
    requires s[p..] == m.Text() + ([mark] + (sign + rest)) && ToDigit(At(rest, 0)) >= 10
    requires sign == "" ==> At(rest, 0) != '+' && At(rest, 0) != '-'
    ensures ParseBody(s, p, start, r, false, neg) == Fail(p + |m.Text()| + 1 + |sign|)
  {
    hide Scan, Mantissa.Text, ExpMark, IsMark, Chars, ExpDigits, Num, At, Sign, ToDigit;
    MarkMeans(mark, r);
    AtStart([mark], sign + rest);
    MantissaReads(s, p, start, r, false, m, [mark] + (sign + rest));
    var q := p + |m.Text()|;
    Suffix(s, q, [mark], sign + rest);
    SignScan(s, q + 1, sign, rest);
  }

  // ----- the start of a text -----

  /** A prefix letter, the radix it names, and when it is heeded. */
  predicate Names(c: char, r: nat, radix: nat, binOct: bool) {
    || ((c == 'x' || c == 'X') && r == 16 && (radix == 0 || radix == 16))
    || ((c == 'o' || c == 'O') && r == 8 && radix == 0 && binOct)
    || ((c == 'b' || c == 'B') && r == 2 && radix == 0 && binOct)
  }

  predicate NoPrefix(t: string, radix: nat, binOct: bool) {
    At(t, 0) == '0' ==>
      && !Names(At(t, 1), 16, radix, binOct) && !Names(At(t, 1), 8, radix, binOct) && !Names(At(t, 1), 2, radix, binOct)
  }

  function RadixOf(radix: nat): (r: nat) {
    if radix == 0 then 10 else radix
  }

  /** A text that starts neither with a sign of its own nor with Infinity. */
  predicate PlainStart(sign: string, t: string, intOnly: bool) {
    IsSign(sign) && (sign == "" ==> At(t, 0) != '+' && At(t, 0) != '-') && (intOnly || !StartsWith(t, 0, "Infinity"))
  }

  lemma Unprefixed(sign: string, t: string, radix: nat, intOnly: bool, binOct: bool)
    requires (radix == 0 || IsRadix(radix)) && PlainStart(sign, t, intOnly) && NoPrefix(t, radix, binOct)
    ensures (sign + t)[|sign|..] == t
    ensures Parse(sign + t, radix, intOnly, binOct)
         == ParseBody(sign + t, |sign|, |sign|, RadixOf(radix), intOnly, sign == "-")
  {
    hide ParseBody;
    var s := sign + t;
    assert s[0..] == s;
    SignScan(s, 0, sign, t);
    if StartsWith(s, |sign|, "Infinity") { assert t[0..8] == s[|sign|..|sign| + 8]; }
  }

  lemma Prefixed(sign: string, c: char, r: nat, t: string, radix: nat, intOnly: bool, binOct: bool)
    requires (radix == 0 || IsRadix(radix)) && IsSign(sign) && Names(c, r, radix, binOct)
    ensures
      var s := sign + (['0', c] + t);
      && s[|sign| + 2..] == t
      && Parse(s, radix, intOnly, binOct)
         == if ToDigit(At(t, 0)) >= r then Fail(|sign| + 2)
            else ParseBody(s, |sign| + 2, |sign|, r, intOnly, sign == "-")
  {
    hide ParseBody, ToDigit, Prefix, Sign, At, StartsWith;
    var s := sign + (['0', c] + t);
    assert s[0..] == s;
    TwoStart('0', c, t);
    SignScan(s, 0, sign, ['0', c] + t);
    Suffix(s, |sign|, ['0', c], t);
    PrefixIs(s, |sign|, c, r, radix, binOct);
  }

  lemma TwoStart(a: char, b: char, t: string)
    ensures At([a, b] + t, 0) == a && At([a, b] + t, 1) == b
  {}

  lemma PrefixIs(s: string, p: nat, c: char, r: nat, radix: nat, binOct: bool)
    requires At(s, p) == '0' && At(s, p + 1) == c && Names(c, r, radix, binOct)
    ensures Prefix(s, p, radix, binOct) == (r, p + 2)
  {
    hide At;
  }

  // ----- what is read -----

  lemma NotInfinity(t: string)
    requires At(t, 0) != 'I'
    ensures !StartsWith(t, 0, "Infinity")
  {
    if |t| >= 8 { assert t[0..8][0] == t[0]; }
  }

  lemma MantissaStart(m: Mantissa, rest: string, r: nat)
    requires m.Valid(r)
    ensures
      var c := At(m.Text() + rest, 0);
      c != '+' && c != '-' && !StartsWith(m.Text() + rest, 0, "Infinity") && (m.whole != [] ==> ToDigit(c) < r)
  {
    hide Chars;
    TextParts(m);
    if m.whole != [] {
      DigitStart(m.whole, if m.point then ("." + Chars(m.fraction)) + rest else rest);
    }
    NotInfinity(m.Text() + rest);
  }

  /** A mantissa alone, after an optional sign. */
  lemma NumberReads(sign: string, m: Mantissa, rest: string, radix: nat, intOnly: bool, binOct: bool)
    requires (radix == 0 || IsRadix(radix)) && IsSign(sign) && m.Valid(RadixOf(radix)) && (m.point ==> !intOnly)
    requires EndsMantissa(rest, m, RadixOf(radix), intOnly) && (intOnly || !IsMark(At(rest, 0), RadixOf(radix)))
    requires NoPrefix(m.Text() + rest, radix, binOct)
    ensures Parse(sign + (m.Text() + rest), radix, intOnly, binOct)
         == Number(sign == "-", RadixOf(radix), m.Digits(), |m.whole|, 0, false, |sign| + |m.Text()|)
  {
    hide ParseBody, Parse, Mantissa.Text, NoPrefix, IsMark, ToDigit;
    MantissaStart(m, rest, RadixOf(radix));
    Unprefixed(sign, m.Text() + rest, radix, intOnly, binOct);
    BodyReads(sign + (m.Text() + rest), |sign|, |sign|, RadixOf(radix), intOnly, sign == "-", m, rest);
  }

  /** A mantissa with an exponent. */
  lemma ExponentNumberReads(sign: string, m: Mantissa, x: Exponent, rest: string, radix: nat, binOct: bool)
    requires (radix == 0 || IsRadix(radix)) && IsSign(sign) && m.Valid(RadixOf(radix)) && x.Valid(RadixOf(radix))
    requires ToDigit(At(rest, 0)) >= 10 && NoPrefix(m.Text() + (x.Text() + rest), radix, binOct)
    ensures Parse(sign + (m.Text() + (x.Text() + rest)), radix, false, binOct)
         == Number(sign == "-", RadixOf(radix), m.Digits(), |m.whole|, x.Value(), x.Binary(),
                   |sign| + |m.Text()| + |x.Text()|)
  {
    hide ParseBody, Parse, Mantissa.Text, Exponent.Text, NoPrefix, IsMark, ToDigit, Num;
    var t := m.Text() + (x.Text() + rest);
    MantissaStart(m, x.Text() + rest, RadixOf(radix));
    Unprefixed(sign, t, radix, false, binOct);
    ExponentBodyReads(sign + t, |sign|, |sign|, RadixOf(radix), sign == "-", m, x, rest);
  }

  /** A mantissa in the radix a prefix names. It starts with a digit. */
  lemma PrefixedReads(sign: string, c: char, r: nat, m: Mantissa, rest: string, radix: nat, intOnly: bool, binOct: bool)
    requires (radix == 0 || IsRadix(radix)) && IsSign(sign) && Names(c, r, radix, binOct)
    requires m.Valid(r) && m.whole != [] && (m.point ==> !intOnly)
    requires EndsMantissa(rest, m, r, intOnly) && (intOnly || !IsMark(At(rest, 0), r))
    ensures Parse(sign + (['0', c] + (m.Text() + rest)), radix, intOnly, binOct)
         == Number(sign == "-", r, m.Digits(), |m.whole|, 0, false, |sign| + 2 + |m.Text()|)
  {
    hide ParseBody, Parse, Mantissa.Text, IsMark, ToDigit;
    var t := m.Text() + rest;
    MantissaStart(m, rest, r);
    Prefixed(sign, c, r, t, radix, intOnly, binOct);
    BodyReads(sign + (['0', c] + t), |sign| + 2, |sign|, r, intOnly, sign == "-", m, rest);
  }

  lemma PrefixedExponentReads(sign: string, c: char, r: nat, m: Mantissa, x: Exponent, rest: string, radix: nat,
                              binOct: bool)
    requires (radix == 0 || IsRadix(radix)) && IsSign(sign) && Names(c, r, radix, binOct)
    requires m.Valid(r) && m.whole != [] && x.Valid(r) && ToDigit(At(rest, 0)) >= 10
    ensures Parse(sign + (['0', c] + (m.Text() + (x.Text() + rest))), radix, false, binOct)
         == Number(sign == "-", r, m.Digits(), |m.whole|, x.Value(), x.Binary(), |sign| + 2 + |m.Text()| + |x.Text()|)
  {
    hide ParseBody, Parse, Mantissa.Text, Exponent.Text, IsMark, ToDigit, Num;
    var t := m.Text() + (x.Text() + rest);
    MantissaStart(m, x.Text() + rest, r);
    Prefixed(sign, c, r, t, radix, false, binOct);
    ExponentBodyReads(sign + (['0', c] + t), |sign| + 2, |sign|, r, sign == "-", m, x, rest);
  }

  /** Infinity, unless only integers are read. */
  lemma InfinityReads(sign: string, rest: string, radix: nat, binOct: bool)
    requires (radix == 0 || IsRadix(radix)) && IsSign(sign)
    ensures Parse(sign + ("Infinity" + rest), radix, false, binOct) == Infinite(sign == "-", |sign| + 8)
  {
    hide ParseBody;
    var s := sign + ("Infinity" + rest);
    assert s[0..] == s;
    SignScan(s, 0, sign, "Infinity" + rest);
    Suffix(s, |sign|, "Infinity", rest);
    assert s[|sign|..|sign| + 8] == s[|sign|..][..8];
  }

  // ----- what is refused -----

  /** A prefix that no digit of its radix follows. */
  lemma PrefixFails(sign: string, c: char, r: nat, rest: string, radix: nat, intOnly: bool, binOct: bool)
    requires (radix == 0 || IsRadix(radix)) && IsSign(sign) && Names(c, r, radix, binOct) && ToDigit(At(rest, 0)) >= r
    ensures Parse(sign + (['0', c] + rest), radix, intOnly, binOct) == Fail(|sign| + 2)
  {
    hide Parse, ToDigit;
    Prefixed(sign, c, r, rest, radix, intOnly, binOct);
  }

  /** An exponent mark that no decimal digit follows. */
  lemma ExponentFails(sign: string, m: Mantissa, mark: char, after: string, rest: string, radix: nat, binOct: bool)
    requires (radix == 0 || IsRadix(radix)) && IsSign(sign) && m.Valid(RadixOf(radix)) && IsMark(mark, RadixOf(radix))
    requires IsSign(after) && ToDigit(At(rest, 0)) >= 10 && (after == "" ==> At(rest, 0) != '+' && At(rest, 0) != '-')
    requires NoPrefix(m.Text() + ([mark] + (after + rest)), radix, binOct)
    ensures Parse(sign + (m.Text() + ([mark] + (after + rest))), radix, false, binOct)
         == Fail(|sign| + |m.Text()| + 1 + |after|)
  {
    hide ParseBody, Parse, Mantissa.Text, NoPrefix, IsMark, ToDigit;
    var t := m.Text() + ([mark] + (after + rest));
    MantissaStart(m, [mark] + (after + rest), RadixOf(radix));
    Unprefixed(sign, t, radix, false, binOct);
    ExponentBodyFails(sign + t, |sign|, |sign|, RadixOf(radix), sign == "-", m, mark, after, rest);
  }

  /** Nothing that a number starts with. */
  lemma NothingReads(sign: string, t: string, radix: nat, intOnly: bool, binOct: bool)
    requires (radix == 0 || IsRadix(radix)) && PlainStart(sign, t, intOnly) && ToDigit(At(t, 0)) >= RadixOf(radix)
    requires intOnly || At(t, 0) != '.' || ToDigit(At(t, 1)) >= RadixOf(radix)
    ensures Parse(sign + t, radix, intOnly, binOct) == Fail(|sign|)
  {
    hide Parse;
    var s, r := sign + t, RadixOf(radix);
    assert NoPrefix(t, radix, binOct);
    Unprefixed(sign, t, radix, intOnly, binOct);
    assert s == sign + t && s[0..] == s;
    Suffix(s, 0, sign, t);
    assert Scan(s, |sign|, |sign|, r, intOnly, false) == Body([], -1, |sign|);
  }

  lemma PrefixedExponentFails(sign: string, c: char, r: nat, m: Mantissa, mark: char, after: string, rest: string,
                              radix: nat, binOct: bool)
    requires (radix == 0 || IsRadix(radix)) && IsSign(sign) && Names(c, r, radix, binOct)
    requires m.Valid(r) && m.whole != [] && IsMark(mark, r)
    requires IsSign(after) && ToDigit(At(rest, 0)) >= 10 && (after == "" ==> At(rest, 0) != '+' && At(rest, 0) != '-')
    ensures Parse(sign + (['0', c] + (m.Text() + ([mark] + (after + rest)))), radix, false, binOct)
         == Fail(|sign| + 2 + |m.Text()| + 1 + |after|)
  {
    hide ParseBody, Parse, Mantissa.Text, IsMark, ToDigit;
    var t := m.Text() + ([mark] + (after + rest));
    MantissaStart(m, [mark] + (after + rest), r);
    Prefixed(sign, c, r, t, radix, false, binOct);
    ExponentBodyFails(sign + (['0', c] + t), |sign| + 2, |sign|, r, sign == "-", m, mark, after, rest);
  }

  // ----- letter case -----

  function Small(c: char): (d: char) {
    if 'A' <= c <= 'Z' then c + 32 as char else c
  }

  function SmallText(s: string): (t: string)
    ensures |t| == |s| && forall i :: 0 <= i < |s| ==> t[i] == Small(s[i])
  {
    seq(|s|, i requires 0 <= i < |s| => Small(s[i]))
  }

  /** The case of a letter matters to none of the tests on a single character. */
  lemma SmallSame(c: char, d: char, r: nat)
    requires d == Small(c)
    ensures ToDigit(d) == ToDigit(c) && (d == '.' <==> c == '.') && (d == '+' <==> c == '+') && (d == '-' <==> c == '-')
    ensures (d == '0' <==> c == '0') && (ExpMark(d, r) <==> ExpMark(c, r))
    ensures (d == 'p' || d == 'P') <==> (c == 'p' || c == 'P')
    ensures (d == 'x' || d == 'X') <==> (c == 'x' || c == 'X')
    ensures (d == 'o' || d == 'O') <==> (c == 'o' || c == 'O')
    ensures (d == 'b' || d == 'B') <==> (c == 'b' || c == 'B')
    ensures d != 'I'
  {}

  lemma SmallAt(s: string, i: nat, r: nat)
    ensures
      var c, d := At(s, i), At(SmallText(s), i);
      && ToDigit(d) == ToDigit(c) && (d == '.' <==> c == '.') && (d == '+' <==> c == '+') && (d == '-' <==> c == '-')
      && (d == '0' <==> c == '0') && (ExpMark(d, r) <==> ExpMark(c, r))
      && ((d == 'p' || d == 'P') <==> (c == 'p' || c == 'P')) && ((d == 'x' || d == 'X') <==> (c == 'x' || c == 'X'))
      && ((d == 'o' || d == 'O') <==> (c == 'o' || c == 'O')) && ((d == 'b' || d == 'B') <==> (c == 'b' || c == 'B'))
      && d != 'I'
  {
    hide ToDigit, ExpMark;
    SmallSame(At(s, i), At(SmallText(s), i), r);
  }

  lemma {:induction false} SmallScan(s: string, p: nat, start: nat, r: nat, intOnly: bool, seen: bool)
    requires r <= 36
    ensures Scan(SmallText(s), p, start, r, intOnly, seen) == Scan(s, p, start, r, intOnly, seen)
    decreases |s| - p
  {
    hide ToDigit, ExpMark, SmallText, At;
    SmallAt(s, p, r);
    SmallAt(s, p + 1, r);
    if p < |s| {
      SmallScan(s, p + 1, start, r, intOnly, true);
      SmallScan(s, p + 1, start, r, intOnly, seen);
    } else {
      PastEnd(s, p, start, r, intOnly, seen);
      PastEnd(SmallText(s), p, start, r, intOnly, seen);
    }
  }

  lemma PastEnd(s: string, p: nat, start: nat, r: nat, intOnly: bool, seen: bool)
    requires r <= 36 && p >= |s|
    ensures Scan(s, p, start, r, intOnly, seen) == Body([], -1, p) && ExpDigits(s, p) == []
  {
    NoDigitAtEnd();
  }

  lemma {:induction false} SmallDigits(s: string, p: nat)
    ensures ExpDigits(SmallText(s), p) == ExpDigits(s, p)
    decreases |s| - p
  {
    hide ToDigit, ExpMark, SmallText, At;
    SmallAt(s, p, 10);
    if p < |s| {
      SmallDigits(s, p + 1);
    } else {
      PastEnd(s, p, 0, 10, false, false);
      PastEnd(SmallText(s), p, 0, 10, false, false);
    }
  }

  lemma SmallBody(s: string, p: nat, start: nat, r: nat, intOnly: bool, neg: bool)
    requires 2 <= r <= 36
    ensures ParseBody(SmallText(s), p, start, r, intOnly, neg) == ParseBody(s, p, start, r, intOnly, neg)
  {
    hide ToDigit, ExpMark, SmallText, At, Scan, ExpDigits, Num;
    SmallScan(s, p, start, r, intOnly, false);
    var end := Scan(s, p, start, r, intOnly, false).end;
    SmallAt(s, end, r);
    SmallAt(s, end + 1, r);
    var (expNeg, q) := Sign(s, end + 1);
    SmallAt(s, q, r);
    SmallDigits(s, q);
  }

  /** But for the word Infinity, capitals are read like small letters. */
  lemma CaseBlind(s: string, radix: nat, intOnly: bool, binOct: bool)
    requires (radix == 0 || IsRadix(radix)) && !Parse(s, radix, intOnly, binOct).Infinite?
    ensures Parse(SmallText(s), radix, intOnly, binOct) == Parse(s, radix, intOnly, binOct)
  {
    hide ToDigit, ExpMark, SmallText, At, ParseBody;
    SmallAt(s, 0, 10);
    var (neg, start) := Sign(s, 0);
    SmallAt(s, start, 10);
    SmallAt(s, start + 1, 10);
    SmallAt(s, start + 2, 10);
    var (named, p) := Prefix(s, start, radix, binOct);
    NeverInfinity(s, start);
    SmallBody(s, p, start, if named == 0 then 10 else named, intOnly, neg);
  }

  lemma NeverInfinity(s: string, p: nat)
    ensures !StartsWith(SmallText(s), p, "Infinity")
  {
    var t := SmallText(s);
    if StartsWith(t, p, "Infinity") {
      assert t[p] == t[p..p + 8][0];
      SmallAt(s, p, 10);
    }
  }

  // ----- the number read -----

  /** The number that digits around a point and an exponent stand for. */
  ghost function Meaning(m: Mantissa, r: nat, base: nat, x: int): (v: real)
    requires r >= 1 && base >= 1
  {
    (Num(m.whole, r) as real + Num(m.fraction, r) as real * Pw(r, -|m.fraction|)) * Pw(base, x)
  }

  lemma ValueMeans(lit: Lit, m: Mantissa)
    requires lit.Number? && IsRadix(lit.radix) && lit.digits == m.Digits() && lit.dot == |m.whole|
    ensures ValueOf(lit, |lit.digits|) == Meaning(m, lit.radix, if lit.binary then 2 else lit.radix, lit.exponent)
  {
    hide Num, Pw, Pow;
    var r, a, b := lit.radix, m.whole, m.fraction;
    var j, x := -|b|, lit.exponent;
    assert lit.digits[..|lit.digits|] == a + b;
    NumConcat(a, b, r);
    PwNat(r, |b|);
    PwAdd(r, |b|, j);
    assert |b| + j == 0;
    CastProduct(Num(a, r), Pow(r, |b|), Pw(r, |b|));
    var n, u, w := Num(a + b, r) as real, Num(a, r) as real, Num(b, r) as real;
    Fraction(n, u, w, Pw(r, |b|), Pw(r, j), Pw(r, 0));
    if lit.binary {
      Commute(n, Pw(2, x), Pw(r, j));
    } else {
      PwAdd(r, j, x);
      RMulAssoc(n, Pw(r, j), Pw(r, x));
    }
  }

  lemma Fraction(n: real, u: real, w: real, p: real, q: real, one: real)
    requires n == u * p + w && one == p * q && one == 1.0
    ensures n * q == u + w * q
  {
    assert (u * p) * q == u * (p * q) by { RMulAssoc(u, p, q); }
    assert (u * p + w) * q == (u * p) * q + w * q;
  }

  lemma Commute(n: real, a: real, b: real)
    ensures (n * a) * b == (n * b) * a
  {}

  /**
    * The double read is the nearest to the number written when no digit is dropped: in a power-of-two radix always, in
    * another when the digits after the leading zeros are no more than are kept.
    */
  lemma NearestRead(lit: Lit, m: Mantissa)
    requires lit.Number? && IsRadix(lit.radix) && lit.digits == m.Digits() && lit.dot == |m.whole|
    requires IsPow2Radix(lit.radix) || |lit.digits| - LeadingZeros(lit.digits) <= AtodMaxDigits(lit.radix)
    ensures
      var v := Meaning(m, lit.radix, if lit.binary then 2 else lit.radix, lit.exponent);
      v >= 0.0 && NearestBits(lit) == Encode(lit.neg, ToDouble(NearestEven, v))
  {
    hide ValueOf, Meaning, Encode, ToDouble, AtodMaxDigits;
    ValueMeans(lit, m);
  }

  /** The digits that count: all of them in a power-of-two radix, else at most atod_max_digits after leading zeros. */
  lemma CountedIs(lit: Lit)
    requires lit.Number? && IsRadix(lit.radix)
    ensures
      var z, n, most := LeadingZeros(lit.digits), |lit.digits|, AtodMaxDigits(lit.radix);
      Counted(lit) == if IsPow2Radix(lit.radix) || n - z <= most then n else z + most
  {
    hide AtodMaxDigits;
  }

  // ----- integers behind a prefix -----

  lemma WholeMeaning(n: nat, r: nat, base: nat)
    requires IsRadix(r) && base >= 1
    ensures Meaning(Mantissa(Plain(n, r), false, []), r, base, 0) == n as real
  {
    hide Plain;
    PlainNum(n, r);
    assert Num([], r) == 0;
  }

  lemma ZeroStart(u: string, sign: string, t: string, radix: nat, intOnly: bool, binOct: bool)
    requires (radix == 0 || IsRadix(radix)) && IsSign(sign) && SmallText(u) == sign + (['0'] + t)
    ensures !Parse(u, radix, intOnly, binOct).Infinite?
  {
    hide ParseBody, ToDigit, ExpMark, SmallText, At;
    var s := SmallText(u);
    assert s[0..] == s;
    AtStart(['0'], t);
    SignScan(s, 0, sign, ['0'] + t);
    SmallAt(u, 0, 10);
    SmallAt(u, |sign|, 10);
    var (neg, start) := Sign(u, 0);
    var (named, p) := Prefix(u, start, radix, binOct);
    BodyFinite(u, p, start, if named == 0 then 10 else named, intOnly, neg);
  }

  lemma BodyFinite(s: string, p: nat, start: nat, r: nat, intOnly: bool, neg: bool)
    requires 2 <= r <= 36
    ensures !ParseBody(s, p, start, r, intOnly, neg).Infinite?
  {
    hide Scan, ExpMark, ToDigit;
  }

  /**
    * An integer behind the prefix of its radix, in letters of either case and with or without a sign, is read as the
    * double nearest to it, and the whole text is consumed.
    */
  lemma PrefixedInteger(u: string, sign: string, c: char, r: nat, n: nat, radix: nat, intOnly: bool, binOct: bool)
    requires radix == 0 && IsSign(sign)
    requires (c == 'x' && r == 16) || (c == 'o' && r == 8 && binOct) || (c == 'b' && r == 2 && binOct)
    requires SmallText(u) == sign + (['0', c] + Chars(Plain(n, r)))
    ensures
      var lit := Parse(u, radix, intOnly, binOct);
      && lit.Number? && lit.radix == r && lit.end == |u| && lit.exponent == 0
      && NearestBits(lit) == Encode(sign == "-", ToDouble(NearestEven, n as real))
  {
    hide Parse, Encode, ToDouble, Plain, Chars, SmallText, Meaning, Small, NearestBits, Mantissa.Text;
    var m := Mantissa(Plain(n, r), false, []);
    TextParts(m);
    assert m.Text() + "" == Chars(Plain(n, r));
    ZeroTail(sign, c, Chars(Plain(n, r)));
    ZeroStart(u, sign, [c] + Chars(Plain(n, r)), radix, intOnly, binOct);
    PrefixedReads(sign, c, r, m, "", radix, intOnly, binOct);
    CaseBlind(u, radix, intOnly, binOct);
    var lit := Parse(u, radix, intOnly, binOct);
    NearestRead(lit, m);
    WholeMeaning(n, r, r);
  }

  lemma ZeroTail(sign: string, c: char, t: string)
    ensures sign + (['0', c] + t) == sign + (['0'] + ([c] + t))
  {
    assert ['0', c] + t == ['0'] + ([c] + t);
  }

  /** Without the flag for them, the prefixes 0o and 0b are a zero with something behind it. */
  lemma PrefixUnread(sign: string, c: char, rest: string, intOnly: bool)
    requires IsSign(sign) && (c == 'o' || c == 'O' || c == 'b' || c == 'B')
    ensures
      var lit := Parse(sign + (['0', c] + rest), 0, intOnly, false);
      && lit.Number? && lit.radix == 10 && lit.end == |sign| + 1 && lit.exponent == 0
      && NearestBits(lit) == Encode(sign == "-", (0, 0))
  {
    hide Parse, Encode, ToDouble, Meaning, NearestBits, AtodMaxDigits;
    var m := Mantissa([0], false, []);
    TextParts(m);
    assert m.Text() == "0";
    var after := [c] + rest;
    ZeroTail(sign, c, rest);
    AtStart([c], rest);
    AtStart("0", after);
    assert At("0" + after, 1) == c;
    NumberReads(sign, m, after, 0, intOnly, false);
    var lit := Parse(sign + (['0', c] + rest), 0, intOnly, false);
    KeptDigits(10);
    NearestRead(lit, m);
    ZeroMeaning();
  }

  lemma ZeroMeaning()
    ensures Meaning(Mantissa([0], false, []), 10, 10, 0) == 0.0 && ToDouble(NearestEven, 0.0) == (0, 0)
  {
    assert Num([0], 10) == 0 by { assert [0][..0] == []; }
    assert Num([], 10) == 0;
  }
}
