/** Scaling a multi-limb number by a power of a radix: pow_ui, pow_ui_inv and mul_pow of src/dtoa.c. */
module Scaling {
  import opened Powers
  import opened Rounding
  import opened Limbs
  import opened MpbModel
  import opened Tables

  /** The low 32 bits of 5^b (pow5_table). */
  function Pow5Low(b: nat): (x: nat)
    requires 1 <= b <= 17
    ensures x < 0x1_0000_0000
  {
    match b
    case 1 => 0x00000005 case 2 => 0x00000019 case 3 => 0x0000007d case 4 => 0x00000271
    case 5 => 0x00000c35 case 6 => 0x00003d09 case 7 => 0x0001312d case 8 => 0x0005f5e1
    case 9 => 0x001dcd65 case 10 => 0x009502f9 case 11 => 0x02e90edd case 12 => 0x0e8d4a51
    case 13 => 0x48c27395 case 14 => 0x6bcc41e9 case 15 => 0x1afd498d case 16 => 0x86f26fc1
    case _ => 0xa2bc2ec5
  }

  /** The bits of 5^b above the low 32 (pow5h_table holds the rows from 14 on; the others are 0). */
  function Pow5High(b: nat): (x: nat)
    requires 1 <= b <= 17
    ensures x < 0x100 && (b < 14 ==> x == 0)
  {
    match b case 14 => 0x01 case 15 => 0x07 case 16 => 0x23 case 17 => 0xb1 case _ => 0x00
  }

  predicate Pow5Row(b: nat, high: nat, low: nat) {
    Square(5, b) == high * 0x1_0000_0000 + low
  }

  predicate Pow5Rows(b: nat, low: nat)
    requires 1 <= low && b <= 17
    decreases b
  {
    b < low || (Pow5Row(b, Pow5High(b), Pow5Low(b)) && Pow5Rows(b - 1, low))
  }

  lemma Pow5Rows17()
    ensures Pow5Rows(17, 13)
  {}

  lemma Pow5Rows12()
    ensures Pow5Rows(12, 7)
  {}

  lemma Pow5Rows6()
    ensures Pow5Rows(6, 1)
  {}

  lemma {:induction false} Pow5Pick(b: nat, top: nat, low: nat)
    requires 1 <= low <= b <= top <= 17 && Pow5Rows(top, low)
    ensures Pow5Row(b, Pow5High(b), Pow5Low(b))
    decreases top
  {
    hide Pow5Row, Pow5High, Pow5Low;
    if b < top { Pow5Pick(b, top - 1, low); }
  }

  lemma Pow5Table(b: nat)
    requires 1 <= b <= 17
    ensures Or(Pow5Low(b), Pow5High(b) * 0x1_0000_0000) == Pow(5, b)
    ensures b < 14 ==> Pow5Low(b) == Pow(5, b)
  {
    hide Pow5Low, Pow5High, Pow5Rows, Or, Pow, Square;
    if b <= 6 {
      Pow5Rows6();
      Pow5Pick(b, 6, 1);
    } else if b <= 12 {
      Pow5Rows12();
      Pow5Pick(b, 12, 7);
    } else {
      Pow5Rows17();
      Pow5Pick(b, 17, 13);
    }
    SquareIsPow(5, b);
    Base32();
    OrDisjoint(Pow5High(b), Pow5Low(b), 32);
  }

  lemma Base32()
    ensures Pow(2, 32) == 0x1_0000_0000
  {
    SquareIsPow(2, 32);
    assert Square(2, 32) == 0x1_0000_0000;
  }

  /** pow_ui: a power that fits a limb, by table for 5 and 10, else by squaring from the top bit. */
  method PowUi(a: nat, b: nat) returns (r: Limb)
    requires a >= 1 && Pow(a, b) < BASE
    ensures r == Pow(a, b)
  {
    hide Pow;
    PowUnfold(a, 0);
    if b == 0 {
      return 1;
    }
    if b == 1 {
      return a;
    }
    if (a == 5 || a == 10) && b <= 17 {
      r := Pow5Value(a, b);
    } else {
      r := PowBySquaring(a, b);
    }
  }

  method Pow5Value(a: nat, b: nat) returns (r: Limb)
    requires (a == 5 || a == 10) && 2 <= b <= 17 && Pow(a, b) < BASE
    ensures r == Pow(a, b)
  {
    hide Pow, Or, Pow5Low, Pow5High;
    Pow5Table(b);
    PowMulBase(5, 2, b);
    PowPositive(2, b);
    MulMono(Pow(5, b), Pow(5, b), 1, Pow(2, b));
    r := Pow5Low(b);
    if b >= 14 {
      r := Or(r, Pow5High(b) * 0x1_0000_0000);
    }
    if a == 10 {
      r := r * Pow(2, b) % BASE;
    }
  }

  method PowBySquaring(a: nat, b: nat) returns (r: Limb)
    requires a >= 1 && b >= 2 && Pow(a, b) < BASE
    ensures r == Pow(a, b)
  {
    hide Pow, BitLen;
    PowUnfold(a, 0);
    var i := BitLen(b) - 1;
    PowPositive(2, i);
    PowUnfold(2, i);
    TopOne(b, Pow(2, i));
    PowMono(a, 1, b);
    r := a;
    while i > 0
      invariant 0 <= i && Pow(2, i) > 0 && r == Pow(a, b / Pow(2, i)) < BASE
    {
      i := i - 1;
      PowPositive(2, i);
      BitStep(a, b, i, r);
      ghost var next := Pow(a, b / Pow(2, i));
      var bit := b / Pow(2, i) % 2;
      r := Squared(r, a, bit, next);
    }
    PowUnfold(2, 0);
    DivByOne(b);
  }

  /** One turn of the loop: a square, and a factor for a set bit. */
  method Squared(r0: Limb, a: nat, bit: nat, ghost next: nat) returns (r: Limb)
    requires r0 * r0 < BASE && next < BASE && (if bit == 0 then r0 * r0 == next else (r0 * r0) * a == next)
    ensures r == next
  {
    r := r0 * r0 % BASE;
    if bit != 0 {
      r := r * a % BASE;
    }
  }

  lemma DivByOne(b: nat)
    ensures b / 1 == b
  {}

  lemma TopOne(b: nat, p: nat)
    requires 0 < p <= b < 2 * p
    ensures b / p == 1
  {
    DivModUnique(b, p, 1, b - p);
  }

  /** One step of squaring: the next bit of the exponent. */
  lemma BitStep(a: nat, b: nat, i: nat, r: nat)
    requires a >= 1 && Pow(2, i) > 0 && Pow(2, i + 1) > 0 && Pow(a, b) < BASE
    requires r == Pow(a, b / Pow(2, i + 1))
    ensures r * r < BASE
    ensures b / Pow(2, i) % 2 == 0 ==> r * r == Pow(a, b / Pow(2, i))
    ensures b / Pow(2, i) % 2 != 0 ==> (r * r) * a == Pow(a, b / Pow(2, i)) < BASE
    ensures Pow(a, b / Pow(2, i)) < BASE
  {
    hide Pow;
    var p := Pow(2, i);
    PowUnfold(2, i);
    var n, h := b / p, b / Pow(2, i + 1);
    DivTwice(b, p, 2);
    assert p * 2 == 2 * p;
    assert h == n / 2;
    PowAdd(a, h, h);
    assert n <= b by { assert b >= n * p; MulMono(n, n, 1, p); }
    PowMono(a, n, b);
    PowMono(a, h + h, n);
    if n % 2 != 0 {
      assert n == (h + h) + 1;
      PowUnfold(a, h + h);
    }
  }

  /** pow_ui_inv: the power shifted until its top bit is set, the shift, and the reciprocal. */
  method PowUiInv(a: nat, b: nat) returns (r: Limb, rInv: Limb, shift: nat)
    requires a >= 1 && Pow(a, b) < BASE
    ensures shift < 64 && r == Pow(a, b) * Pow(2, shift) && r >= BASE / 2 && rInv == ReciprocalOf(r)
  {
    hide Pow, BitLen, ReciprocalOf;
    r := PowUi(a, b);
    PowPositive(a, b);
    NormShift(r);
    shift := 64 - BitLen(r);
    r := r * Pow(2, shift) % BASE;
    rInv := ReciprocalOf(r);
  }

  lemma NormShift(r: Limb)
    requires r > 0
    ensures 0 < BitLen(r) <= 64
    ensures BASE / 2 <= r * Pow(2, 64 - BitLen(r)) < BASE
  {
    hide Pow, BitLen;
    var n := BitLen(r);
    Base64();
    if n > 64 { PowMono(2, 64, n - 1); }
    SplitBase(n);
    PowUnfold(2, n - 1);
    var p := Pow(2, 64 - n);
    MulMono(r + 1, Pow(2, n), p, p);
    assert (r + 1) * p == r * p + p;
    MulMono(Pow(2, n - 1), r, p, p);
    assert 2 * (Pow(2, n - 1) * p) == BASE;
  }

  /** Factors mul_pow is called with: 1, or a radix whose limb power fits a limb. */
  predicate IsFactor(r: nat) {
    r == 1 || (3 <= r <= 36 && r != 4 && r != 16)
  }

  /** The number of limb divisions a negative exponent takes. */
  function Divisions(radix1: nat, f: nat): (l: nat)
    requires IsFactor(radix1) && radix1 != 1
  {
    DigitsTable(radix1);
    (f + DigitsPerLimb(radix1) - 1) / DigitsPerLimb(radix1)
  }

  /** The number shifted left by `s` and divided by a power, with a sticky low bit. */
  function Divided(v: nat, s: nat, radix1: nat, f: nat): (q: nat)
    requires radix1 >= 1
  {
    PowPositive(radix1, f);
    Sticky(v * Pow(2, s), Pow(radix1, f))
  }

  /** How far mul_pow shifts the number left before dividing by `radix1^f`. */
  function DownShift(radix1: nat, radixShift: nat, f: nat, isInt: bool, e: int, bitLen: nat): (s: nat)
    requires IsFactor(radix1) && radix1 != 1
  {
    var l := Divisions(radix1, f) * 64;
    l + (if isInt then Max(2 + e - (f * radixShift + l), 0) else Max(e - (bitLen - 1), 0))
  }

  function Max(x: int, y: int): int {
    if x >= y then x else y
  }

  /** mul_pow with a non-negative exponent: multiply by limb-sized powers. */
  method MulPowUp(a: Mpb, radix1: nat, f0: nat)
    requires IsFactor(radix1) && radix1 != 1
    requires a.Valid() && a.Norm() && a.Value() * Pow(radix1, f0) < Pow(BASE, a.tab.Length)
    modifies a, a.tab
    ensures a.Valid() && a.Norm() && a.Value() == old(a.Value()) * Pow(radix1, f0)
  {
    hide Pow, Val, DigitsPerLimb;
    var d := DigitsPerLimb(radix1);
    DigitsTable(radix1);
    var f, n0, b: Limb := f0, 0, 0;
    ghost var v0 := a.Value();
    PowUnfold(radix1, 0);
    while f != 0
      invariant 0 <= f <= f0 && a.Valid() && a.Norm()
      invariant a.Value() == v0 * Pow(radix1, f0 - f)
      invariant n0 > 0 ==> b == Pow(radix1, n0)
      decreases f
    {
      var n := if f < d then f else d;
      if n != n0 {
        PowMono(radix1, n, d);
        b := PowUi(radix1, n);
        n0 := n;
      }
      GrowBound(v0, radix1, f0 - f, n, f0, Pow(BASE, a.tab.Length));
      MulLimb(a, b);
      f := f - n;
    }
  }

  lemma GrowBound(v: nat, r: nat, k: nat, n: nat, top: nat, bound: nat)
    requires r >= 1 && k + n <= top && v * Pow(r, top) < bound
    ensures (v * Pow(r, k)) * Pow(r, n) == v * Pow(r, k + n) < bound
    ensures Pow(r, n) >= 1
  {
    hide Pow;
    PowAdd(r, k, n);
    MulAssoc(v, Pow(r, k), Pow(r, n));
    PowMono(r, k + n, top);
    MulMono(v, v, Pow(r, k + n), Pow(r, top));
    PowPositive(r, n);
  }

  /** One multiplication of mul_pow: a non-zero carry becomes a new top limb. */
  method MulLimb(a: Mpb, b: Limb)
    requires a.Valid() && a.Norm() && b >= 1 && a.Value() * b < Pow(BASE, a.tab.Length)
    modifies a, a.tab
    ensures a.Valid() && a.Norm() && a.Value() == old(a.Value()) * b
  {
    hide Pow, Val;
    var h := Mul1(a.tab, a.tab, a.len, b, 0);
    ghost var top := Pow(BASE, a.len);
    if h != 0 {
      MulMono(1, h, top, top);
      if a.len >= a.tab.Length { PowMono(BASE, a.tab.Length, a.len); }
      a.tab[a.len] := h;
      ValLast(a.tab[..], a.len);
      assert a.tab[..][..a.len + 1] == a.tab[..a.len + 1] && a.tab[..][..a.len] == a.tab[..a.len];
      a.len := a.len + 1;
    } else {
      MulMono(old(a.Value()), old(a.Value()), 1, b);
      NormKept(old(a.tab[..a.len]), a.tab[..a.len]);
    }
  }

  /** mul_pow with a negative exponent: divide by limb-sized powers, keeping a sticky bit for the remainders. */
  method MulPowDown(a: Mpb, radix1: nat, f0: nat)
    requires IsFactor(radix1) && radix1 != 1 && f0 >= 1
    requires a.Valid()
    modifies a, a.tab
    ensures a.Valid() && a.Norm()
    ensures Pow(radix1, f0) > 0 && a.Value() == Sticky(old(a.Value()), Pow(radix1, f0))
  {
    hide Pow, Val, DigitsPerLimb, Or, ReciprocalOf;
    var d := DigitsPerLimb(radix1);
    DigitsTable(radix1);
    Base64();
    var f, n0, b: Limb, bInv: Limb, shift, rem: Limb := f0, 0, 0, 0, 0, 0;
    ghost var v0 := a.Value();
    PowUnfold(radix1, 0);
    while f != 0
      invariant 0 <= f <= f0 && a.Valid() && (f < f0 ==> a.Norm())
      invariant Pow(radix1, f0 - f) > 0 && a.Value() == v0 / Pow(radix1, f0 - f)
      invariant rem == 0 <==> v0 % Pow(radix1, f0 - f) == 0
      invariant n0 > 0 ==>
        shift < 64 && b == Pow(radix1, n0) * Pow(2, shift) && b >= BASE / 2 && bInv == ReciprocalOf(b)
      decreases f
    {
      var n := if f < d then f else d;
      if n != n0 {
        PowMono(radix1, n, d);
        b, bInv, shift := PowUiInv(radix1, n);
        n0 := n;
      }
      ghost var p, v := Pow(radix1, n), a.Value();
      PowPositive(radix1, n);
      var r := Div1Norm(a.tab, a.len, b, 0, bInv, shift, p);
      DivModUnique(v, p, Val(a.tab[..a.len]), r);
      ChainStep(v0, radix1, f0 - f, n);
      OrZero(rem, r);
      OrBound(rem, r, 64);
      rem := Or(rem, r);
      a.Renorm();
      f := f - n;
    }
    if rem != 0 {
      SetLowBit(a);
    } else {
      OrSame(a.tab[0]);
    }
  }

  /** Floor divisions chain, and their remainders vanish together. */
  lemma ChainStep(v: nat, r: nat, k: nat, n: nat)
    requires r >= 1 && Pow(r, k) > 0 && Pow(r, n) > 0
    ensures Pow(r, k + n) > 0
    ensures v / Pow(r, k + n) == v / Pow(r, k) / Pow(r, n)
    ensures v % Pow(r, k + n) == 0 <==> v % Pow(r, k) == 0 && v / Pow(r, k) % Pow(r, n) == 0
  {
    hide Pow;
    PowAdd(r, k, n);
    DivTwice(v, Pow(r, k), Pow(r, n));
    SumZero(v / Pow(r, k) % Pow(r, n), Pow(r, k), v % Pow(r, k));
  }

  /** `tab[0] |= 1`. */
  method SetLowBit(a: Mpb)
    requires a.Valid() && a.Norm()
    modifies a.tab
    ensures a.Valid() && a.Norm() && a.Value() == old(a.Value()) + 1 - old(a.Value()) % 2
  {
    hide Val, Or;
    OrOne(a.tab[0]);
    ghost var s := a.tab[..a.len];
    a.tab[0] := Or(a.tab[0], 1);
    ghost var t := a.tab[..a.len];
    ValHead(s, 0, |s|);
    ValHead(t, 0, |t|);
    assert s[0..|s|] == s && t[0..|t|] == t;
    assert s[1..|s|] == t[1..|t|];
    EvenBase(s[0], Val(s[1..|s|]));
  }

  lemma EvenBase(x: int, y: int)
    ensures (x + BASE * y) % 2 == x % 2
  {
    assert BASE * y == 2 * (BASE / 2 * y);
  }

  /**
    * mul_pow: scale by `(radix1 * 2^radixShift)^f`. The result is the number times 2^eOffset; a negative
    * exponent leaves the quotient with a sticky low bit.
    */
  method MulPow(a: Mpb, radix1: nat, radixShift: nat, f: int, isInt: bool, e: int) returns (eOffset: int)
    requires IsFactor(radix1)
    requires a.Valid() && a.Norm()
    requires radix1 != 1 && f >= 0 ==> a.Value() * Pow(radix1, f) < Pow(BASE, a.tab.Length)
    requires radix1 != 1 && f < 0 ==>
      a.len + (DownShift(radix1, radixShift, -f, isInt, e, BitLen(a.Value())) + 63) / 64 <= a.tab.Length
    modifies a, a.tab
    ensures a.Valid() && a.Norm()
    ensures radix1 == 1 ==> eOffset == -f * radixShift && a.Value() == old(a.Value())
    ensures radix1 != 1 && f >= 0 ==> eOffset == -f * radixShift && a.Value() == old(a.Value()) * Pow(radix1, f)
    ensures radix1 != 1 && f < 0 ==>
      var s := DownShift(radix1, radixShift, -f, isInt, e, BitLen(old(a.Value())));
      eOffset == -f * radixShift + s && a.Value() == Divided(old(a.Value()), s, radix1, -f)
  {
    hide Pow, BitLen, Sticky, DigitsPerLimb;
    eOffset := -f * radixShift;
    if radix1 != 1 {
      if f >= 0 {
        MulPowUp(a, radix1, f);
      } else {
        DigitsTable(radix1);
        var l := (-f + DigitsPerLimb(radix1) - 1) / DigitsPerLimb(radix1);
        eOffset := eOffset + l * 64;
        var extra;
        if !isInt {
          var k := a.FloorLog2();
          extra := Max(e - k, 0);
        } else {
          extra := Max(2 + e - eOffset, 0);
        }
        eOffset := eOffset + extra;
        a.ShrRound(-(l * 64 + extra), TowardZero);
        MulPowDown(a, radix1, -f);
      }
    }
  }
}
