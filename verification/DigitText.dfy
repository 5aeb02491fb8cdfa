/** Digit characters in src/dtoa.c: limb_to_a, u64toa_bin_len, u32toa, u64toa, u64toa_radix, output_digits. */
module DigitText {
  import opened Powers
  import opened Rounding
  import opened Limbs
  import opened MpbModel
  import opened Tables
  import opened FreeLoop
  import opened Estimates
  import opened Literal

  /** The character of a digit. */
  function DigitChar(d: nat): (c: char)
    requires d < 36
    ensures ToDigit(c) == d && c != '.' && c != 'I' && c != '+' && c != '-'
  {
    if d < 10 then '0' + d as char else 'a' + (d - 10) as char
  }

  /** A digit sequence as text. */
  function Chars(ds: seq<nat>): (t: string)
    requires AreDigits(ds, 36)
    ensures |t| == |ds| && forall i :: 0 <= i < |ds| ==> t[i] == DigitChar(ds[i])
  {
    seq(|ds|, i requires 0 <= i < |ds| => DigitChar(ds[i]))
  }

  lemma CharsConcat(a: seq<nat>, b: seq<nat>)
    requires AreDigits(a, 36) && AreDigits(b, 36)
    ensures AreDigits(a + b, 36) && Chars(a + b) == Chars(a) + Chars(b)
  {}

  lemma CharsPush(d: nat, b: seq<nat>)
    requires d < 36 && AreDigits(b, 36)
    ensures AreDigits([d] + b, 36) && Chars([d] + b) == [DigitChar(d)] + Chars(b)
  {}

  /** The low `len` digits of a number, most significant first. */
  function DigitsOf(n: nat, r: nat, len: nat): (ds: seq<nat>)
    requires r >= 1
    ensures |ds| == len && forall i :: 0 <= i < |ds| ==> ds[i] < r
  {
    if len == 0 then [] else DigitsOf(n / r, r, len - 1) + [n % r]
  }

  /** The digits stand for the number, as far as they reach. */
  lemma {:induction false} DigitsOfNum(n: nat, r: nat, len: nat)
    requires r >= 1
    ensures Pow(r, len) > 0 && Num(DigitsOf(n, r, len), r) == n % Pow(r, len)
    decreases len
  {
    hide Pow, Num;
    PowUnfold(r, 0);
    PowPositive(r, len);
    if len == 0 {
      NumZeros([], r);
    } else {
      DigitsOfNum(n / r, r, len - 1);
      NumAppend(DigitsOf(n / r, r, len - 1), n % r, r);
      PowUnfold(r, len - 1);
      DivTwice(n, r, Pow(r, len - 1));
    }
  }

  /** Digits of the high part, then of the low part. */
  lemma {:induction false} DigitsOfSplit(n: nat, r: nat, high: nat, low: nat)
    requires r >= 1
    ensures Pow(r, low) > 0
    ensures DigitsOf(n, r, high + low) == DigitsOf(n / Pow(r, low), r, high) + DigitsOf(n, r, low)
    decreases low
  {
    hide Pow;
    PowUnfold(r, 0);
    PowPositive(r, low);
    if low > 0 {
      DigitsOfSplit(n / r, r, high, low - 1);
      PowUnfold(r, low - 1);
      DivTwice(n, r, Pow(r, low - 1));
      var a, b := DigitsOf(n / r / Pow(r, low - 1), r, high), DigitsOf(n / r, r, low - 1);
      assert (a + b) + [n % r] == a + (b + [n % r]);
    } else {
      assert n / 1 == n;
    }
  }

  /** Only the remainder matters for the low digits. */
  lemma {:induction false} DigitsOfMod(n: nat, r: nat, len: nat, j: nat)
    requires r >= 1 && len <= j
    ensures Pow(r, j) > 0 && DigitsOf(n % Pow(r, j), r, len) == DigitsOf(n, r, len)
    decreases len
  {
    hide Pow;
    PowPositive(r, j);
    if len > 0 {
      PowUnfold(r, j - 1);
      var p := Pow(r, j - 1);
      PowPositive(r, j - 1);
      DivTwice(n, r, p);
      DigitsOfMod(n / r, r, len - 1, j - 1);
      DivModUnique(n % (r * p), r, n / r % p, n % r);
    }
  }

  // ----- one limb -----

  /** limb_to_a: a fixed number of digits, by remainders from the right. */
  method LimbToA(n0: nat, r: nat, len: nat) returns (t: string)
    requires IsRadix(r)
    ensures t == Chars(DigitsOf(n0, r, len))
  {
    hide Chars, DigitChar, DigitsOf;
    var n: nat, i := n0, len;
    t := Chars([]);
    ghost var ds: seq<nat> := [];
    assert DigitsOf(n0, r, len) + [] == DigitsOf(n0, r, len);
    while i > 0
      invariant 0 <= i <= len && AreDigits(ds, 36) && t == Chars(ds)
      invariant DigitsOf(n0, r, len) == DigitsOf(n, r, i) + ds
    {
      var digit := Remainder(n, r);
      DigitsOfStep(n, r, i);
      i := i - 1;
      assert DigitsOf(n / r, r, i) + [digit] + ds == DigitsOf(n / r, r, i) + ([digit] + ds);
      CharsPush(digit, ds);
      ds := [digit] + ds;
      t := [DigitChar(digit)] + t;
      n := n / r;
    }
    assert DigitsOf(n, r, 0) + ds == ds;
  }

  /** u64toa_bin_len: a digit is the low bits, and the rest is shifted down. */
  method BinToA(n0: nat, bits: nat, len: nat) returns (t: string)
    requires 1 <= bits <= 5
    ensures 2 <= Pow(2, bits) <= 32 && t == Chars(DigitsOf(n0, Pow(2, bits), len))
  {
    hide Chars, DigitChar, DigitsOf, Pow;
    BitsRadix(bits);
    var n: nat, i, r := n0, len, Pow(2, bits);
    t := Chars([]);
    ghost var ds: seq<nat> := [];
    assert DigitsOf(n0, r, len) + [] == DigitsOf(n0, r, len);
    while i > 0
      invariant 0 <= i <= len && AreDigits(ds, 36) && t == Chars(ds)
      invariant DigitsOf(n0, r, len) == DigitsOf(n, r, i) + ds
    {
      var low, rest := n % r, n / r;
      DigitsOfStep(n, r, i);
      i := i - 1;
      assert DigitsOf(rest, r, i) + [low] + ds == DigitsOf(rest, r, i) + ([low] + ds);
      CharsPush(low, ds);
      t, ds, n := [DigitChar(low)] + t, [low] + ds, rest;
    }
    assert DigitsOf(n, r, 0) + ds == ds;
  }

  lemma BitsRadix(bits: nat)
    requires 1 <= bits <= 5
    ensures 2 <= Pow(2, bits) <= 32
  {
    assert Pow(2, 1) == 2 && Pow(2, 2) == 4 && Pow(2, 3) == 8 && Pow(2, 4) == 16 && Pow(2, 5) == 32;
  }

  // ----- integers without leading zeros -----

  /** The length of a number in a radix; 1 for 0. */
  function Length(n: nat, r: nat): (len: nat)
    requires r >= 2
    ensures len >= 1 && n < Pow(r, len) && (len > 1 ==> Pow(r, len - 1) <= n)
  {
    PowUnfold(r, 0);
    if n < r then 1
    else
      SmallerQuotient(n, r);
      var k := Length(n / r, r);
      LengthStep(n, r, k);
      k + 1
  }

  lemma SmallerQuotient(n: nat, r: nat)
    requires n >= 1 && r >= 2
    ensures 0 <= n / r < n
  {}

  lemma LengthStep(n: nat, r: nat, k: nat)
    requires r >= 2 && k >= 1 && n >= r && n / r < Pow(r, k) && (k > 1 ==> Pow(r, k - 1) <= n / r)
    ensures n < Pow(r, k + 1) && Pow(r, k) <= n
  {
    hide Pow;
    var q := n / r;
    assert n == q * r + n % r;
    PowUnfold(r, k);
    PowUnfold(r, k - 1);
    PowUnfold(r, 0);
    MulMono(q + 1, Pow(r, k), r, r);
    assert (q + 1) * r == q * r + r;
    MulMono(Pow(r, k - 1), q, r, r);
  }

  lemma LengthUnique(n: nat, r: nat, len: nat)
    requires r >= 2 && len >= 1 && n < Pow(r, len) && (len > 1 ==> Pow(r, len - 1) <= n)
    ensures Length(n, r) == len
  {
    hide Pow, Length;
    var k := Length(n, r);
    if k < len { PowMono(r, k, len - 1); }
    if len < k { PowMono(r, len, k - 1); }
  }

  /** A number written without leading zeros. */
  function Plain(n: nat, r: nat): (ds: seq<nat>)
    requires IsRadix(r)
    ensures |ds| >= 1 && AreDigits(ds, r) && AreDigits(ds, 36)
  {
    DigitsOf(n, r, Length(n, r))
  }

  lemma PlainNum(n: nat, r: nat)
    requires IsRadix(r)
    ensures Num(Plain(n, r), r) == n
  {
    hide Pow, Num, Length;
    var len := Length(n, r);
    DigitsOfNum(n, r, len);
    DivModUnique(n, Pow(r, len), 0, n);
  }

  /** A high part without leading zeros, then a fixed number of low digits. */
  lemma PlainSplit(n: nat, r: nat, low: nat)
    requires IsRadix(r) && Pow(r, low) > 0 && n >= Pow(r, low)
    ensures Plain(n, r) == Plain(n / Pow(r, low), r) + DigitsOf(n, r, low)
  {
    hide Pow, Length, DigitsOf;
    var p := Pow(r, low);
    var q := n / p;
    var k := Length(q, r);
    assert n == q * p + n % p;
    PowAdd(r, k, low);
    MulMono(q + 1, Pow(r, k), p, p);
    assert (q + 1) * p == q * p + p;
    if k > 1 {
      PowAdd(r, k - 1, low);
      MulMono(Pow(r, k - 1), q, p, p);
    } else {
      PowUnfold(r, 0);
      PowAdd(r, 0, low);
      MulMono(1, q, p, p);
    }
    LengthUnique(n, r, k + low);
    DigitsOfSplit(n, r, k, low);
  }

  /** u32toa: two digits at a time from the right. */
  method U32toa(n0: nat) returns (t: string)
    ensures t == Chars(Plain(n0, 10))
  {
    hide Pow, Length, DigitsOf, Chars, Plain;
    var n := n0;
    t := Chars([]);
    ghost var ds: seq<nat> := [];
    assert Plain(n, 10) + ds == Plain(n, 10);
    Hundred();
    while n >= 100
      invariant AreDigits(ds, 36) && t == Chars(ds) && Plain(n0, 10) == Plain(n, 10) + ds
    {
      PlainSplit(n, 10, 2);
      var pair := n % 100;
      TwoDigitsOf(n);
      assert (Plain(n / 100, 10) + [pair / 10, pair % 10]) + ds == Plain(n / 100, 10) + ([pair / 10, pair % 10] + ds);
      CharsPair(pair / 10, pair % 10, ds);
      ds := [pair / 10, pair % 10] + ds;
      t := [DigitChar(pair / 10), DigitChar(pair % 10)] + t;
      n := n / 100;
    }
    SmallPlain(n);
    if n >= 10 {
      CharsPair(n / 10, n % 10, ds);
      t := [DigitChar(n / 10), DigitChar(n % 10)] + t;
    } else {
      CharsPush(n, ds);
      t := [DigitChar(n)] + t;
    }
  }

  lemma CharsPair(d: nat, d': nat, b: seq<nat>)
    requires d < 36 && d' < 36 && AreDigits(b, 36)
    ensures AreDigits([d, d'] + b, 36) && Chars([d, d'] + b) == [DigitChar(d), DigitChar(d')] + Chars(b)
  {
    assert [d, d'] + b == [d] + ([d'] + b);
  }

  lemma Hundred()
    ensures Pow(10, 2) == 100 && Pow(10, 1) == 10
  {
    PowUnfold(10, 1);
    PowUnfold(10, 0);
  }

  lemma TwoDigitsOf(n: nat)
    ensures DigitsOf(n, 10, 2) == [n % 100 / 10, n % 100 % 10]
  {
    hide DigitsOf;
    var q := n / 10;
    DivTwice(n, 10, 10);
    DivModUnique(n % 100, 10, q % 10, n % 10);
    DigitsOfStep(n, 10, 2);
    DigitsOfStep(q, 10, 1);
    assert ([] + [q % 10]) + [n % 10] == [q % 10, n % 10];
  }

  lemma DigitsOfStep(n: nat, r: nat, len: nat)
    requires r >= 1 && len >= 1
    ensures DigitsOf(n, r, len) == DigitsOf(n / r, r, len - 1) + [n % r] && DigitsOf(n, r, 0) == []
  {}

  lemma SmallPlain(n: nat)
    requires n < 100
    ensures n < 10 ==> Plain(n, 10) == [n]
    ensures n >= 10 ==> Plain(n, 10) == [n / 10, n % 10]
  {
    Hundred();
    if n < 10 {
      LengthUnique(n, 10, 1);
      assert DigitsOf(n, 10, 1) == DigitsOf(n / 10, 10, 0) + [n % 10];
    } else {
      LengthUnique(n, 10, 2);
      TwoDigitsOf(n);
    }
  }

  /** u64toa: pieces of nine digits. */
  method U64toa(n: Limb) returns (t: string)
    ensures t == Chars(Plain(n, 10))
  {
    hide Pow, Length, DigitsOf, Chars, Plain;
    if n < 0x1_0000_0000 {
      t := U32toa(n);
    } else {
      Billion();
      var n1, low := n / 1000000000, n % 1000000000;
      NineMore(n);
      if n1 >= 0x1_0000_0000 {
        t := U62toa(n1);
      } else {
        t := U32toa(n1);
      }
      var v := LimbToA(low, 10, 9);
      t := t + v;
    }
  }

  lemma NineMore(n: nat)
    requires n >= 1000000000
    ensures Chars(Plain(n, 10)) == Chars(Plain(n / 1000000000, 10)) + Chars(DigitsOf(n % 1000000000, 10, 9))
  {
    hide Pow, Length, DigitsOf, Chars;
    Billion();
    PlainSplit(n, 10, 9);
    DigitsOfMod(n, 10, 9, 9);
    CharsConcat(Plain(n / 1000000000, 10), DigitsOf(n, 10, 9));
  }

  /** Ten or eleven digits of u64toa: one or two in front of nine. */
  method U62toa(n1: nat) returns (t: string)
    requires 0x1_0000_0000 <= n1 < 100000000000
    ensures t == Chars(Plain(n1, 10))
  {
    hide Pow, Length, DigitsOf, Plain;
    var n2, mid := n1 / 1000000000, n1 % 1000000000;
    NineMore(n1);
    SmallPlain(n2);
    t := "";
    if n2 >= 10 {
      t := [DigitChar(n2 / 10)];
      n2 := n2 % 10;
    }
    t := t + [DigitChar(n2)];
    var u := LimbToA(mid, 10, 9);
    t := t + u;
  }

  lemma Billion()
    ensures Pow(10, 9) == 1000000000
  {
    SquareIsPow(10, 9);
    assert Square(10, 9) == 1000000000;
  }

  /** u64toa_radix. */
  method U64toaRadix(n: Limb, r: nat) returns (t: string)
    requires IsRadix(r)
    ensures t == Chars(Plain(n, r))
  {
    hide Pow, Length, DigitsOf, RadixShift, BitLen;
    if r == 10 {
      t := U64toa(n);
    } else if IsPow2Radix(r) {
      var bits := RadixShift(r);
      ghost var b := ShiftOf(r);
      ShiftSmall(r);
      var len := if n == 0 then 1 else (BitLen(n) + bits - 1) / bits;
      BinaryLength(n, r, bits, len);
      t := BinToA(n, bits, len);
    } else {
      t := RemaindersToA(n, r);
    }
  }

  lemma ShiftSmall(r: nat)
    requires IsPow2Radix(r)
    ensures 1 <= RadixShift(r) <= 5
  {
    hide Pow;
    assert RadixShift(2) == 1 && RadixShift(4) == 2 && RadixShift(8) == 3;
    assert RadixShift(16) == 1 + RadixShift(8) && RadixShift(32) == 1 + RadixShift(16);
  }

  lemma BinaryLength(n: nat, r: nat, bits: nat, len: nat)
    requires 1 <= bits && r == Pow(2, bits) && r >= 2
    requires len == if n == 0 then 1 else (BitLen(n) + bits - 1) / bits
    ensures Length(n, r) == len
  {
    hide Pow, Length, BitLen;
    PowUnfold(r, 0);
    if n == 0 {
      LengthUnique(n, r, 1);
    } else {
      var b := BitLen(n);
      BitLenPositive(n);
      CeilBits(b, bits, len);
      PowPow(2, bits, len);
      PowMono(2, b, bits * len);
      PowPow(2, bits, len - 1);
      PowMono(2, bits * (len - 1), b - 1);
      LengthUnique(n, r, len);
    }
  }

  lemma CeilBits(b: nat, bits: nat, len: nat)
    requires b >= 1 && bits >= 1 && len == (b + bits - 1) / bits
    ensures len >= 1 && b <= bits * len && bits * (len - 1) <= b - 1
  {
    var g := b + bits - 1;
    assert g == bits * len + g % bits;
    assert bits * (len - 1) == bits * len - bits;
  }

  /** The do-while loop of u64toa_radix. */
  method RemaindersToA(n0: Limb, r: nat) returns (t: string)
    requires IsRadix(r)
    ensures t == Chars(Plain(n0, r))
  {
    hide Pow, DigitsOf, Length, Chars, Plain, DigitChar;
    var n: nat := n0;
    var digit := Remainder(n, r);
    PlainStep(n, r);
    CharsPush(digit, []);
    assert [digit] + [] == [digit];
    ghost var ds: seq<nat> := [digit];
    t := [DigitChar(digit)] + Chars([]);
    n := n / r;
    assert n == 0 ==> [] + ds == ds;
    while n != 0
      invariant AreDigits(ds, 36) && t == Chars(ds)
      invariant Plain(n0, r) == (if n == 0 then [] else Plain(n, r)) + ds
    {
      digit := Remainder(n, r);
      PlainStep(n, r);
      ghost var high := if n / r == 0 then [] else Plain(n / r, r);
      assert (high + [digit]) + ds == high + ([digit] + ds);
      CharsPush(digit, ds);
      ds := [digit] + ds;
      t := [DigitChar(digit)] + t;
      n := n / r;
    }
    assert [] + ds == ds;
  }

  /** The last digit; the number left is smaller. */
  function Remainder(n: nat, r: nat): (d: nat)
    requires IsRadix(r)
    ensures d == n % r && d < r && n / r >= 0 && (n > 0 ==> n / r < n)
  {
    n % r
  }

  lemma PlainStep(n: nat, r: nat)
    requires IsRadix(r)
    ensures Plain(n, r) == (if n / r == 0 then [] else Plain(n / r, r)) + [n % r]
  {
    hide Pow;
    var d := Remainder(n, r);
    if n < r {
      DivModUnique(n, r, 0, n);
      DigitsOfStep(n, r, 1);
    } else {
      QuotientPositive(n, r);
      DigitsOfStep(n, r, Length(n, r));
    }
  }

  lemma QuotientPositive(n: nat, r: nat)
    requires n >= r >= 1
    ensures n / r >= 1
  {}

  // ----- output_digits -----

  /** The number left after a limb's worth of digits. */
  lemma NextLimb(v: nat, r: nat, nd: nat, n: nat)
    requires IsRadix(r) && n <= nd && n <= DigitsPerLimb(r) && (n < DigitsPerLimb(r) ==> n == nd)
    ensures Pow(r, DigitsPerLimb(r)) > 0
    ensures DigitsOf(v, r, nd)
         == DigitsOf(v / Pow(r, DigitsPerLimb(r)), r, nd - n) + DigitsOf(v % Pow(r, DigitsPerLimb(r)), r, n)
  {
    hide Pow, DigitsOf, DigitsPerLimb;
    var d := DigitsPerLimb(r);
    PowPositive(r, d);
    DigitsOfMod(v, r, n, d);
    DigitsOfSplit(v, r, nd - n, n);
    if n < d {
      var q := v / Pow(r, d);
      assert nd - n == 0;
      assert DigitsOf(q, r, 0) == DigitsOf(v / Pow(r, n), r, 0);
    }
  }

  /** output_digits: a fixed number of digits, a limb's worth at a time, and a point among them. */
  method OutputDigits(a: Mpb, r: nat, count: nat, dot: nat) returns (t: string)
    requires a.Valid() && a.Norm() && a.tab.Length >= 2 && IsRadix(r) && dot <= count
    modifies a, a.tab
    ensures a.Valid()
    ensures t == PutDot(DigitsOf(old(a.Value()), r, count), dot)
  {
    hide Pow, DigitsOf, DigitsPerLimb, Mpb.Value, Chars, RadixShift;
    if IsPow2Radix(r) {
      t := BinaryDigits(a, r, count);
    } else {
      t := DividedDigits(a, r, count);
    }
    ghost var ds := DigitsOf(old(a.Value()), r, count);
    assert ds == ds[..dot] + ds[dot..];
    CharsConcat(ds[..dot], ds[dot..]);
    if dot != count {
      t := t[..dot] + "." + t[dot..];
    }
  }

  /** Digits with the point after the first `dot` of them, and no point after the last. */
  function PutDot(ds: seq<nat>, dot: nat): (t: string)
    requires AreDigits(ds, 36) && dot <= |ds|
  {
    if dot == |ds| then Chars(ds) else Chars(ds[..dot]) + "." + Chars(ds[dot..])
  }

  method DividedDigits(a: Mpb, r: nat, count: nat) returns (t: string)
    requires a.Valid() && a.Norm() && IsRadix(r) && !IsPow2Radix(r)
    modifies a, a.tab
    ensures a.Valid() && t == Chars(DigitsOf(old(a.Value()), r, count))
  {
    hide Pow, DigitsOf, DigitsPerLimb, Mpb.Value, Chars, RadixBase;
    DigitsTable(r);
    ghost var v0 := a.Value();
    var nd: nat := count;
    t := Chars([]);
    ghost var done: seq<nat> := [];
    assert DigitsOf(v0, r, count) + [] == DigitsOf(v0, r, count);
    while nd != 0
      invariant nd <= count && a.Valid() && a.Norm() && AreDigits(done, 36) && t == Chars(done)
      invariant DigitsOf(v0, r, count) == DigitsOf(a.Value(), r, nd) + done
    {
      var n := if nd < DigitsPerLimb(r) then nd else DigitsPerLimb(r);
      ghost var v := a.Value();
      NextLimb(v, r, nd, n);
      var rem := Divide(a, RadixBase(r));
      DivModUnique(v, RadixBase(r), a.Value(), rem);
      nd := nd - n;
      var piece := LimbToA(rem, r, n);
      ghost var low := DigitsOf(rem, r, n);
      assert (DigitsOf(a.Value(), r, nd) + low) + done == DigitsOf(a.Value(), r, nd) + (low + done);
      CharsConcat(low, done);
      done := low + done;
      t := piece + t;
    }
    assert DigitsOf(a.Value(), r, 0) + done == done;
  }

  /** mp_div1 in place and mpb_renorm. */
  method Divide(a: Mpb, b: Limb) returns (rem: Limb)
    requires a.Valid() && b > 0
    modifies a, a.tab
    ensures a.Valid() && a.Norm() && rem < b && a.Value() * b + rem == old(a.Value())
  {
    hide Pow, Val;
    rem := Div1(a.tab, a.tab, a.len, b, 0);
    a.Renorm();
  }

  method BinaryDigits(a: Mpb, r: nat, count: nat) returns (t: string)
    requires a.Valid() && a.Norm() && a.tab.Length >= 2 && IsPow2Radix(r)
    modifies a, a.tab
    ensures a.Valid() && t == Chars(DigitsOf(old(a.Value()), r, count))
  {
    hide Pow, DigitsOf, DigitsPerLimb, Mpb.Value, Chars, RadixShift;
    DigitsTable(r);
    var bits := RadixShift(r);
    ghost var b := ShiftOf(r);
    ShiftSmall(r);
    LimbDivides(r, bits);
    ghost var v0 := a.Value();
    var nd: nat := count;
    t := Chars([]);
    ghost var done: seq<nat> := [];
    assert DigitsOf(v0, r, count) + [] == DigitsOf(v0, r, count);
    while true
      invariant nd <= count && a.Valid() && a.Norm() && AreDigits(done, 36) && t == Chars(done)
      invariant DigitsOf(v0, r, count) == DigitsOf(a.Value(), r, nd) + done
      decreases nd
    {
      var n := if nd < DigitsPerLimb(r) then nd else DigitsPerLimb(r);
      ghost var v := a.Value();
      NextLimb(v, r, nd, n);
      nd := nd - n;
      var limb := a.GetU64();
      var piece := BinToA(limb, bits, n);
      LowLimb(v, r, n);
      ghost var low := DigitsOf(limb, r, n);
      ghost var high := DigitsOf(v / Pow(r, DigitsPerLimb(r)), r, nd);
      assert (high + low) + done == high + (low + done);
      CharsConcat(low, done);
      done := low + done;
      t := piece + t;
      if nd == 0 {
        assert high + done == done;
        break;
      }
      DropLimb(a, r, bits);
    }
  }

  method DropLimb(a: Mpb, r: nat, bits: nat)
    requires a.Valid() && a.Norm() && a.tab.Length >= 2 && IsPow2Radix(r)
    requires Pow(r, DigitsPerLimb(r)) == Pow(2, DigitsPerLimb(r) * bits) && bits >= 1
    modifies a, a.tab
    ensures a.Valid() && a.Norm() && Pow(r, DigitsPerLimb(r)) > 0
    ensures a.Value() == old(a.Value()) / Pow(r, DigitsPerLimb(r))
  {
    hide Pow, DigitsPerLimb, Mpb.Value, RoundShift;
    ghost var v := a.Value();
    DigitsTable(r);
    Truncates(v, DigitsPerLimb(r) * bits);
    MulMono(1, DigitsPerLimb(r), 1, bits);
    a.ShrRound(DigitsPerLimb(r) * bits, TowardZero);
  }

  lemma Truncates(v: nat, k: nat)
    ensures Pow(2, k) > 0 && RoundShift(TowardZero, v, k) == v / Pow(2, k)
  {
    PowUnfold(2, 0);
    PowPositive(2, k);
    assert v / 1 == v;
  }

  /** A limb's worth of binary digits is a whole number of bits of the limb. */
  lemma LimbDivides(r: nat, bits: nat)
    requires IsPow2Radix(r) && bits == RadixShift(r) && bits >= 1 && r == Pow(2, bits)
    ensures Pow(r, DigitsPerLimb(r)) == Pow(2, DigitsPerLimb(r) * bits)
  {
    hide Pow, DigitsPerLimb;
    PowPow(2, bits, DigitsPerLimb(r));
    assert bits * DigitsPerLimb(r) == DigitsPerLimb(r) * bits;
  }

  /** The low digits are those of the low limb. */
  lemma LowLimb(v: nat, r: nat, n: nat)
    requires IsPow2Radix(r) && n <= DigitsPerLimb(r)
    ensures Pow(r, DigitsPerLimb(r)) > 0
    ensures DigitsOf(v % Pow(r, DigitsPerLimb(r)), r, n) == DigitsOf(v % BASE, r, n)
  {
    hide Pow, DigitsOf, DigitsPerLimb, RadixShift;
    var d := DigitsPerLimb(r);
    DigitsTable(r);
    DigitsOfMod(v, r, n, d);
    DigitsOfMod(v % BASE, r, n, d);
    var b := ShiftOf(r);
    LimbDivides(r, b);
    Base64();
    assert d * b <= 64 by { DigitBits(r); }
    PowAdd(2, d * b, 64 - d * b);
    PowPositive(2, 64 - d * b);
    DivTwice(v, Pow(r, d), Pow(2, 64 - d * b));
    var p := Pow(r, d);
    DivModUnique(v % BASE, p, (v / p) % Pow(2, 64 - d * b), v % p);
  }

  lemma DigitBits(r: nat)
    requires IsPow2Radix(r)
    ensures DigitsPerLimb(r) * RadixShift(r) <= 64
  {
    assert RadixShift(2) == 1 && RadixShift(4) == 2 && RadixShift(8) == 3;
    assert RadixShift(16) == 1 + RadixShift(8) && RadixShift(32) == 1 + RadixShift(16);
  }
}
