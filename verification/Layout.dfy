/** How js_dtoa of src/dtoa.c lays out digits and exponent, and that the reader recovers the number from the text. */
module Layout {
  import opened MpbModel
  import opened Tables
  import opened Literal
  import opened DigitText

  /** JS_DTOA_EXP_AUTO, JS_DTOA_EXP_ENABLED, JS_DTOA_EXP_DISABLED. */
  datatype ExpMode = Auto | Enabled | Disabled

  /** Whether the exponent is written out. */
  predicate UseExp(k: int, r: nat, mode: ExpMode)
    requires IsRadix(r)
  {
    mode.Enabled? || (mode.Auto? && (k <= -6 || k > DtoaMaxDigits(r) + 4))
  }

  /** The radices whose exponent is a power of two. */
  predicate BinaryMark(r: nat) {
    IsPow2Radix(r) && RadixBits(r) <= 4
  }

  function Mark(r: nat): (c: char) {
    if r == 10 then 'e' else if BinaryMark(r) then 'p' else '@'
  }

  function Zeros(n: nat): (z: seq<nat>)
    ensures |z| == n && forall i :: 0 <= i < n ==> z[i] == 0
  {
    seq(n, i => 0)
  }

  /** Digits with the zeros that place the point, and the digits before the point. */
  function Padded(ds: seq<nat>, k: int): (f: seq<nat>)
    ensures forall i :: 0 <= i < |f| ==> f[i] == 0 || f[i] in ds
  {
    if k <= 0 then [0] + Zeros(-k) + ds
    else if k > |ds| then ds + Zeros(k - |ds|)
    else ds
  }

  function PointAt(k: int): (p: nat) {
    if k <= 0 then 1 else k
  }

  /** The exponent as it is written. */
  function Written(k: int, r: nat): int {
    if BinaryMark(r) then (k - 1) * RadixBits(r) else k - 1
  }

  function Signed(x: int): (t: string) {
    if x < 0 then "-" + Chars(Plain(-x, 10)) else "+" + Chars(Plain(x, 10))
  }

  /** The text of the digits `ds` with the point `k` places after their start. */
  function Laid(ds: seq<nat>, k: int, r: nat, mode: ExpMode): (t: string)
    requires IsRadix(r) && |ds| >= 1 && AreDigits(ds, 36)
  {
    if UseExp(k, r, mode) then PutDot(ds, 1) + [Mark(r)] + Signed(Written(k, r))
    else PutDot(Padded(ds, k), PointAt(k))
  }

  // ----- the output loops -----

  lemma {:induction false} CharsZeros(n: nat)
    ensures Chars(Zeros(n + 1)) == Chars(Zeros(n)) + "0"
  {
    assert Zeros(n + 1) == Zeros(n) + [0];
  }

  /** A run of zero characters. */
  method ZeroRun(n: int) returns (t: string)
    ensures t == Chars(Zeros(if n > 0 then n else 0))
  {
    hide Chars, Zeros;
    t := Chars(Zeros(0));
    var i := 0;
    while i < n
      invariant 0 <= i <= (if n > 0 then n else 0) && t == Chars(Zeros(i))
    {
      CharsZeros(i);
      t := t + "0";
      i := i + 1;
    }
  }

  /** The mark, the sign and the digits of the exponent. */
  method ExponentText(k0: int, r: nat) returns (t: string)
    requires IsRadix(r)
    ensures t == [Mark(r)] + Signed(Written(k0, r))
  {
    hide Chars, Plain, RadixBits;
    var k, mark := k0 - 1, '@';
    if r == 10 {
      mark := 'e';
    } else if IsPow2Radix(r) && RadixBits(r) <= 4 {
      k := k * RadixBits(r);
      mark := 'p';
    }
    assert mark == Mark(r) && k == Written(k0, r);
    var u := SignedText(k);
    t := [mark] + u;
  }

  method SignedText(k: int) returns (t: string)
    ensures t == Signed(k)
  {
    hide Chars, Plain;
    if k < 0 {
      t := U32toa(-k);
      t := "-" + t;
    } else {
      t := U32toa(k);
      t := "+" + t;
    }
  }

  /** The output section of js_dtoa for the number in `tmp`, `p` digits long. */
  method Output(tmp: Mpb, r: nat, p: nat, k: int, mode: ExpMode) returns (t: string)
    requires tmp.Valid() && tmp.Norm() && tmp.tab.Length >= 2 && IsRadix(r) && p >= 1
    modifies tmp, tmp.tab
    ensures tmp.Valid() && t == Laid(DigitsOf(old(tmp.Value()), r, p), k, r, mode)
  {
    hide DigitsOf, Chars, Zeros, Mpb.Value, DtoaMaxDigits, RadixBits, Signed, Written, Mark, Padded;
    ghost var ds := DigitsOf(tmp.Value(), r, p);
    if UseExp(k, r, mode) {
      t := OutputDigits(tmp, r, p, 1);
      var u := ExponentText(k, r);
      assert (t + [Mark(r)]) + Signed(Written(k, r)) == t + u;
      t := t + u;
    } else if k <= 0 {
      var z := ZeroRun(-k);
      var u := OutputDigits(tmp, r, p, p);
      t := "0" + "." + z + u;
      SmallPadded(ds, k);
    } else {
      t := OutputDigits(tmp, r, p, if p < k then p else k);
      var z := ZeroRun(k - p);
      t := t + z;
      LargePadded(ds, k);
    }
  }

  lemma SmallPadded(ds: seq<nat>, k: int)
    requires k <= 0 && |ds| >= 1 && AreDigits(ds, 36)
    ensures PutDot(Padded(ds, k), 1) == "0" + "." + Chars(Zeros(-k)) + Chars(ds)
  {
    hide Zeros, Chars;
    var f := Padded(ds, k);
    assert f[..1] == [0] && f[1..] == Zeros(-k) + ds;
    CharsConcat(Zeros(-k), ds);
    assert Chars([0]) == "0";
  }

  lemma LargePadded(ds: seq<nat>, k: int)
    requires k > 0 && |ds| >= 1 && AreDigits(ds, 36)
    ensures PutDot(Padded(ds, k), k)
         == PutDot(ds, if |ds| < k then |ds| else k) + Chars(Zeros(if k - |ds| > 0 then k - |ds| else 0))
  {
    hide Chars;
    if k > |ds| {
      CharsConcat(ds, Zeros(k - |ds|));
    } else {
      assert Zeros(0) == [] && Chars([]) == [];
    }
  }
}
