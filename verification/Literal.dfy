/** The text of a number literal as js_atod of src/dtoa.c scans it, and the real number it stands for. */
module Literal {
  import opened Powers

  /** The character at a position; the terminating NUL past the end. */
  function At(s: string, i: nat): (c: char) {
    if i < |s| then s[i] else '\0'
  }

  /** to_digit: digits and letters, 36 for anything else. */
  function ToDigit(c: char): (d: nat)
    ensures d <= 36
  {
    if '0' <= c <= '9' then c as int - '0' as int
    else if 'A' <= c <= 'Z' then c as int - 'A' as int + 10
    else if 'a' <= c <= 'z' then c as int - 'a' as int + 10
    else 36
  }

  // ----- digit strings -----

  /** The number a digit sequence stands for, most significant digit first. */
  function Num(ds: seq<nat>, r: nat): (n: nat) {
    if ds == [] then 0 else Num(ds[..|ds| - 1], r) * r + ds[|ds| - 1]
  }

  ghost predicate AreDigits(ds: seq<nat>, r: nat) {
    forall i :: 0 <= i < |ds| ==> ds[i] < r
  }

  lemma NumAppend(ds: seq<nat>, d: nat, r: nat)
    ensures Num(ds + [d], r) == Num(ds, r) * r + d
  {
    assert (ds + [d])[..|ds|] == ds;
  }

  lemma {:induction false} NumConcat(a: seq<nat>, b: seq<nat>, r: nat)
    ensures Num(a + b, r) == Num(a, r) * Pow(r, |b|) + Num(b, r)
    decreases |b|
  {
    hide Pow;
    if b == [] {
      assert a + b == a;
      PowUnfold(r, 0);
    } else {
      var k := |b| - 1;
      assert a + b == (a + b[..k]) + [b[k]];
      NumAppend(a + b[..k], b[k], r);
      NumConcat(a, b[..k], r);
      PowUnfold(r, k);
      ShiftIn(Num(a, r), Pow(r, k), Num(b[..k], r), r);
    }
  }

  lemma ShiftIn(x: int, p: int, y: int, r: int)
    ensures (x * p + y) * r == x * (r * p) + y * r
  {}

  lemma {:induction false} NumBound(ds: seq<nat>, r: nat)
    requires AreDigits(ds, r)
    ensures Num(ds, r) < Pow(r, |ds|)
    decreases |ds|
  {
    hide Pow;
    PowUnfold(r, 0);
    if ds != [] {
      var k := |ds| - 1;
      NumBound(ds[..k], r);
      PowUnfold(r, k);
      DigitRoom(Num(ds[..k], r), Pow(r, k), ds[k], r);
    }
  }

  lemma DigitRoom(n: int, p: int, d: int, r: int)
    requires 0 <= n < p && 0 <= d < r
    ensures n * r + d < r * p
  {
    MulMono(n + 1, p, r, r);
    assert (n + 1) * r == n * r + r;
  }

  /** The number of leading zero digits. */
  function LeadingZeros(ds: seq<nat>): (z: nat)
    ensures z <= |ds| && (forall i :: 0 <= i < z ==> ds[i] == 0) && (z < |ds| ==> ds[z] != 0)
  {
    if ds == [] || ds[0] != 0 then 0 else 1 + LeadingZeros(ds[1..])
  }

  lemma {:induction false} NumZeros(ds: seq<nat>, r: nat)
    requires r >= 1
    ensures (forall i :: 0 <= i < |ds| ==> ds[i] == 0) <==> Num(ds, r) == 0
    decreases |ds|
  {
    if ds != [] {
      var k := |ds| - 1;
      NumZeros(ds[..k], r);
      if Num(ds[..k], r) > 0 { MulMono(1, Num(ds[..k], r), 1, r); }
      if Num(ds, r) == 0 {
        forall i | 0 <= i < |ds| ensures ds[i] == 0 { if i < k { assert ds[..k][i] == ds[i]; } }
      }
    }
  }

  /** A leading non-zero digit puts the number in the top range of its length. */
  lemma NumTop(ds: seq<nat>, r: nat)
    requires ds != [] && ds[0] >= 1 && r >= 1
    ensures Num(ds, r) >= Pow(r, |ds| - 1)
  {
    hide Pow;
    assert ds == ds[..1] + ds[1..];
    NumConcat(ds[..1], ds[1..], r);
    assert Num(ds[..1], r) == ds[0] by { assert ds[..1][..0] == []; }
    PowPositive(r, |ds| - 1);
    MulMono(1, ds[0], Pow(r, |ds| - 1), Pow(r, |ds| - 1));
  }

  /** Leading zeros do not count. */
  lemma NumSkipZeros(ds: seq<nat>, r: nat)
    requires r >= 1
    ensures Num(ds, r) == Num(ds[LeadingZeros(ds)..], r)
  {
    var z := LeadingZeros(ds);
    assert ds == ds[..z] + ds[z..];
    NumConcat(ds[..z], ds[z..], r);
    NumZeros(ds[..z], r);
  }

  // ----- scanning -----

  /** A point is part of the literal when something precedes it or a digit follows it. */
  predicate DotHere(s: string, p: nat, start: nat, r: nat, intOnly: bool) {
    At(s, p) == '.' && (p > start || ToDigit(At(s, p + 1)) < r) && !intOnly
  }

  /** The digits read, the index of the point among them (-1 for none), and the position after them. */
  datatype Body = Body(digits: seq<nat>, dot: int, end: nat)

  /** Digits with at most one point, as far as they go. */
  function Scan(s: string, p: nat, start: nat, r: nat, intOnly: bool, seenDot: bool): (b: Body)
    requires r <= 36
    ensures b.end >= p && (p <= |s| ==> b.end <= |s|)
    ensures -1 <= b.dot <= |b.digits| && (seenDot ==> b.dot == -1)
    ensures |b.digits| <= b.end - p
    ensures forall i :: 0 <= i < |b.digits| ==> b.digits[i] < r
    decreases |s| - p
  {
    if !seenDot && DotHere(s, p, start, r, intOnly) then
      var b := Scan(s, p + 1, start, r, intOnly, true);
      Body(b.digits, 0, b.end)
    else if ToDigit(At(s, p)) < r then
      var b := Scan(s, p + 1, start, r, intOnly, seenDot);
      Body([ToDigit(At(s, p))] + b.digits, if b.dot >= 0 then b.dot + 1 else -1, b.end)
    else Body([], -1, p)
  }

  lemma NoDigitAtEnd()
    ensures ToDigit('\0') >= 36
  {}

  /** The scan passes its digits and its point, and ends at the first character that cannot follow them. */
  lemma {:induction false} ScanEnds(s: string, p: nat, start: nat, r: nat, intOnly: bool, seenDot: bool)
    requires r <= 36
    ensures
      var b := Scan(s, p, start, r, intOnly, seenDot);
      && b.end == p + |b.digits| + (if b.dot >= 0 then 1 else 0)
      && (b.dot >= 0 ==> DotHere(s, p + b.dot, start, r, intOnly))
      && ToDigit(At(s, b.end)) >= r && (seenDot || b.dot >= 0 || !DotHere(s, b.end, start, r, intOnly))
    decreases |s| - p
  {
    hide ToDigit;
    NoDigitAtEnd();
    if !seenDot && DotHere(s, p, start, r, intOnly) {
      ScanEnds(s, p + 1, start, r, intOnly, true);
    } else if ToDigit(At(s, p)) < r {
      ScanEnds(s, p + 1, start, r, intOnly, seenDot);
    }
  }

  /** Each digit is the one its character stands for, the point being passed over where it stands. */
  lemma {:induction false} ScanReads(s: string, p: nat, start: nat, r: nat, intOnly: bool, seenDot: bool, i: nat)
    requires r <= 36 && i < |Scan(s, p, start, r, intOnly, seenDot).digits|
    ensures
      var b := Scan(s, p, start, r, intOnly, seenDot);
      b.digits[i] == ToDigit(At(s, p + i + if 0 <= b.dot <= i then 1 else 0))
    decreases |s| - p
  {
    hide ToDigit;
    NoDigitAtEnd();
    if !seenDot && DotHere(s, p, start, r, intOnly) {
      ScanReads(s, p + 1, start, r, intOnly, true, i);
    } else if i > 0 {
      ScanReads(s, p + 1, start, r, intOnly, seenDot, i - 1);
    }
  }

  /** The decimal digits of an exponent. */
  function ExpDigits(s: string, p: nat): (ds: seq<nat>)
    ensures p <= |s| ==> p + |ds| <= |s|
    ensures forall i :: 0 <= i < |ds| ==> ds[i] < 10
    decreases |s| - p
  {
    if ToDigit(At(s, p)) < 10 then [ToDigit(At(s, p))] + ExpDigits(s, p + 1) else []
  }

  // ----- the whole literal -----

  /**
    * What a text is read as: not a number, the keyword Infinity, or digits with the point after the first
    * `dot` of them and an exponent of the radix, or of two.
    */
  datatype Lit =
    | Fail(end: nat)
    | Infinite(neg: bool, end: nat)
    | Number(neg: bool, radix: nat, digits: seq<nat>, dot: nat, exponent: int, binary: bool, end: nat)

  /** log2 of a power-of-two radix, else 0. */
  function RadixBits(r: nat): (b: nat) {
    match r case 2 => 1 case 4 => 2 case 8 => 3 case 16 => 4 case 32 => 5 case _ => 0
  }

  /** The radix named by a prefix, and the position after it. */
  function Prefix(s: string, p: nat, radix: nat, binOct: bool): (rp: (nat, nat))
    ensures rp.1 == p || (rp.1 == p + 2 && (rp.0 == 2 || rp.0 == 8 || rp.0 == 16))
    ensures rp.1 == p ==> rp.0 == radix
  {
    var c := At(s, p + 1);
    if At(s, p) != '0' then (radix, p)
    else if (c == 'x' || c == 'X') && (radix == 0 || radix == 16) then (16, p + 2)
    else if (c == 'o' || c == 'O') && radix == 0 && binOct then (8, p + 2)
    else if (c == 'b' || c == 'B') && radix == 0 && binOct then (2, p + 2)
    else (radix, p)
  }

  /** A sign, and the position after it. */
  function Sign(s: string, p: nat): (np: (bool, nat))
    ensures p <= np.1 <= p + 1
  {
    if At(s, p) == '+' then (false, p + 1) else if At(s, p) == '-' then (true, p + 1) else (false, p)
  }

  predicate StartsWith(s: string, p: nat, word: string) {
    p + |word| <= |s| && s[p..p + |word|] == word
  }

  /** The mark that introduces an exponent in a radix. */
  predicate ExpMark(c: char, r: nat) {
    || (r == 10 && (c == 'e' || c == 'E'))
    || (r != 10 && (c == '@' || (1 <= RadixBits(r) <= 4 && (c == 'p' || c == 'P'))))
  }

  /** The grammar js_atod accepts, without digit separators and legacy octal. */
  function Parse(s: string, radix: nat, intOnly: bool, binOct: bool): (lit: Lit)
    requires radix == 0 || 2 <= radix <= 36
  {
    var (neg, start) := Sign(s, 0);
    var (named, p) := Prefix(s, start, radix, binOct);
    if p > start && ToDigit(At(s, p)) >= named then Fail(p)
    else if At(s, start) != '0' && !intOnly && StartsWith(s, start, "Infinity") then Infinite(neg, start + 8)
    else ParseBody(s, p, start, if named == 0 then 10 else named, intOnly, neg)
  }

  function ParseBody(s: string, p: nat, start: nat, r: nat, intOnly: bool, neg: bool): (lit: Lit)
    requires 2 <= r <= 36
  {
    var b := Scan(s, p, start, r, intOnly, false);
    var dot := if b.dot >= 0 then b.dot else |b.digits|;
    if !intOnly && ExpMark(At(s, b.end), r) && b.end > start then
      var binary := At(s, b.end) == 'p' || At(s, b.end) == 'P';
      var (expNeg, q) := Sign(s, b.end + 1);
      if ToDigit(At(s, q)) >= 10 then Fail(q)
      else
        var ds := ExpDigits(s, q);
        Number(neg, r, b.digits, dot, if expNeg then -(Num(ds, 10) as int) else Num(ds, 10), binary, q + |ds|)
    else if b.end == start then Fail(b.end)
    else Number(neg, r, b.digits, dot, 0, false, b.end)
  }
}
