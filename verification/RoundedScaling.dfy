/** The correctly rounded scalings mul_pow_round, round_to_d and mul_pow_round_to_d of src/dtoa.c. */
module RoundedScaling {
  import opened Powers
  import opened Rounding
  import opened Limbs
  import opened MpbModel
  import opened Tables
  import opened Scaling
  import opened Doubles

  /** The exact value `m * 2^e * radix^f`. */
  ghost function Scaled(m: nat, e: int, radix: nat, f: int): (x: real)
    requires radix >= 1
    ensures x >= 0.0
  {
    (m as real * Pw(2, e)) * Pw(radix, f)
  }

  lemma {:induction false} PwOfPow(b: nat, j: nat, k: int)
    requires b >= 1
    ensures Pow(b, j) >= 1
    ensures Pw(Pow(b, j), k) == Pw(b, k * j)
    decreases if k >= 0 then k else -k
  {
    hide Pw, Pow;
    PowPositive(b, j);
    PwNat(b, j);
    if k == 0 {
      assert k * j == 0;
    } else if k > 0 {
      PwOfPow(b, j, k - 1);
      PwSucc(Pow(b, j), k - 1);
      PwAdd(b, j, (k - 1) * j);
      assert j + (k - 1) * j == k * j;
    } else {
      PwOfPow(b, j, k + 1);
      PwSucc(Pow(b, j), k);
      PwAdd(b, j, k * j);
      assert j + k * j == (k + 1) * j;
      RCancel(Pow(b, j) as real, Pw(Pow(b, j), k), Pw(b, k * j));
    }
  }

  /** Splitting the power of two out of the radix. */
  lemma ScaledFactors(m: nat, e: int, radix1: nat, radixShift: nat, f: int)
    requires radix1 >= 1
    ensures radix1 * Pow(2, radixShift) >= 1
    ensures Scaled(m, e, radix1 * Pow(2, radixShift), f)
         == (m as real * Pw(2, e + f * radixShift)) * Pw(radix1, f)
  {
    hide Pw, Pow;
    PowPositive(2, radixShift);
    PwMulBase(radix1, Pow(2, radixShift), f);
    PwOfPow(2, radixShift, f);
    PwAdd(2, e, f * radixShift);
    Reorder(m as real, Pw(2, e), Pw(radix1, f), Pw(2, f * radixShift));
  }

  lemma Reorder(a: real, b: real, c: real, d: real)
    ensures (a * b) * (c * d) == (a * (b * d)) * c
  {
    assert (a * b) * (c * d) == a * b * c * d;
    assert (a * (b * d)) * c == a * b * c * d;
  }

  lemma ScaledUp(m: nat, e: int, radix1: nat, radixShift: nat, f: nat)
    requires radix1 >= 1
    ensures radix1 * Pow(2, radixShift) >= 1
    ensures Scaled(m, e, radix1 * Pow(2, radixShift), f)
         == (m * Pow(radix1, f)) as real * Pw(2, e + f * radixShift)
  {
    hide Pw, Pow, Scaled;
    ScaledFactors(m, e, radix1, radixShift, f);
    PwNat(radix1, f);
    assert (m * Pow(radix1, f)) as real == m as real * Pow(radix1, f) as real;
    Swap(m as real, Pw(2, e + f * radixShift), Pow(radix1, f) as real);
  }

  lemma Swap(a: real, b: real, c: real)
    ensures (a * b) * c == (a * c) * b
  {}

  /** The exact value as one quotient when the exponent is negative. */
  lemma ScaledDown(m: nat, e: int, radix1: nat, radixShift: nat, f: int, s: nat, t: nat)
    requires radix1 >= 1 && f < 0 && e + f * radixShift == s - t
    ensures radix1 * Pow(2, radixShift) >= 1
    ensures Pow(radix1, -f) * Pow(2, t) > 0
    ensures Scaled(m, e, radix1 * Pow(2, radixShift), f)
         == (m * Pow(2, s)) as real / (Pow(radix1, -f) * Pow(2, t)) as real
  {
    hide Pw, Pow, Scaled;
    ScaledFactors(m, e, radix1, radixShift, f);
    var d, p, q := Pow(radix1, -f), Pow(2, s), Pow(2, t);
    PowPositive(radix1, -f);
    PowPositive(2, t);
    MulMono(1, d, 1, q);
    InverseParts(radix1, f, s, t, d, p, q);
    CastProduct(m, p, p as real);
    CastProduct(d, q, q as real);
    QuotientForm(m as real, Pw(2, s - t), Pw(radix1, f), d as real, p as real, q as real, Pw(radix1, 0));
  }

  lemma InverseParts(radix1: nat, f: int, s: nat, t: nat, d: nat, p: nat, q: nat)
    requires radix1 >= 1 && f < 0 && d == Pow(radix1, -f) && p == Pow(2, s) && q == Pow(2, t)
    ensures p as real == Pw(2, s - t) * q as real
    ensures Pw(radix1, 0) == Pw(radix1, f) * d as real
  {
    hide Pw, Pow;
    PwNat(radix1, -f);
    PwNat(2, s);
    PwNat(2, t);
    PwAdd(radix1, f, -f);
    PwAdd(2, s - t, t);
    assert s - t + t == s && f + -f == 0;
  }

  lemma QuotientForm(m: real, w: real, g: real, d: real, p: real, q: real, one: real)
    requires d > 0.0 && q > 0.0 && p == w * q && one == g * d && one == 1.0
    ensures d * q > 0.0 && (m * w) * g == (m * p) / (d * q)
  {
    var z := (m * w) * g;
    assert z * (d * q) == (m * (w * q)) * (g * d) by { Reorder2(m, w, g, d, q); }
    TimesOne(m * p, one);
    DivideBack(z, d * q, m * p);
  }

  lemma Reorder2(m: real, w: real, g: real, d: real, q: real)
    ensures ((m * w) * g) * (d * q) == (m * (w * q)) * (g * d)
  {
    assert ((m * w) * g) * (d * q) == m * w * g * d * q;
    assert (m * (w * q)) * (g * d) == m * w * g * d * q;
  }

  lemma TimesOne(x: real, one: real)
    requires one == 1.0
    ensures x * one == x
  {}

  lemma DivideBack(z: real, y: real, n: real)
    requires y > 0.0 && z * y == n
    ensures z == n / y
  {}

  /** Rounding an integer times a power of two. */
  lemma RoundPow2(mode: Mode, v: nat, k: int, x: real)
    requires x == v as real * Pw(2, k)
    ensures x >= 0.0
    ensures k >= 0 ==> Round(mode, x) == v * Pow(2, k)
    ensures k < 0 ==> Pow(2, -k) > 0 && Round(mode, x) == RoundQuot(mode, v, Pow(2, -k))
  {
    hide Pw, Pow, Round, RoundQuot;
    if k >= 0 {
      PwNat(2, k);
      CastProduct(v, Pow(2, k), Pw(2, k));
      RoundInt(mode, v * Pow(2, k));
      RoundSame(mode, x, (v * Pow(2, k)) as real);
    } else {
      PowPositive(2, -k);
      PwNat(2, -k);
      PwAdd(2, k, -k);
      assert k + -k == 0;
      InverseForm(v as real, Pw(2, k), Pow(2, -k) as real, Pw(2, 0));
      RoundQuotReal(mode, v, Pow(2, -k));
      RoundSame(mode, x, v as real / Pow(2, -k) as real);
    }
  }

  lemma CastProduct(v: nat, p: nat, w: real)
    requires w == p as real
    ensures v as real * w == (v * p) as real
  {}

  lemma InverseForm(v: real, w: real, p: real, one: real)
    requires p > 0.0 && one == w * p && one == 1.0
    ensures v * w == v / p
  {
    var z := v * w;
    assert z * p == v * (w * p) by { RMulAssoc(v, w, p); }
    TimesOne(v, one);
    DivideBack(z, p, v);
  }

  // ----- mul_pow_round -----

  /** The limb buffer holds every intermediate number of mul_pow_round. */
  ghost predicate Room(m: nat, e: int, radix1: nat, radixShift: nat, f: int, cap: nat)
    requires IsFactor(radix1)
  {
    && cap >= 2
    && (radix1 == 1 || f >= 0 ==>
          var v := m * Pow(radix1, if radix1 == 1 then 0 else f);
          && v < Pow(BASE, cap)
          && (e + f * radixShift > 0 ==> v * Pow(2, e + f * radixShift) < Pow(BASE, cap - 1))
          && (m == 0 ==> 1 + (e + f * radixShift + 63) / 64 <= cap))
    && (radix1 != 1 && f < 0 ==> 1 + (DownShift(radix1, radixShift, -f, true, e, BitLen(m)) + 63) / 64 <= cap)
  }

  /** mul_pow_round: `m * 2^e * radix^f`, rounded to an integer in the given mode. */
  method MulPowRound(tmp: Mpb, m: Limb, e: int, radix1: nat, radixShift: nat, f: int, mode: Mode)
    requires IsFactor(radix1) && tmp.Valid() && Room(m, e, radix1, radixShift, f, tmp.tab.Length)
    modifies tmp, tmp.tab
    ensures tmp.Valid() && (m > 0 ==> tmp.Norm()) && radix1 * Pow(2, radixShift) >= 1
    ensures tmp.Value() == Round(mode, Scaled(m, e, radix1 * Pow(2, radixShift), f))
  {
    hide Pow, Scaled, Round, RoundShift, Sticky, BitLen, DownShift, Room, Mpb.Value, Divided;
    RoomParts(m, e, radix1, radixShift, f, tmp.tab.Length);
    tmp.SetU64(m);
    var eOffset := MulPow(tmp, radix1, radixShift, f, true, e);
    ghost var v := tmp.Value();
    var shift := -e + eOffset;
    LastShift(mode, m, e, radix1, radixShift, f, v, shift);
    if shift < 0 {
      if m > 0 { tmp.LenBound(-shift, tmp.tab.Length - 1); } else { tmp.ZeroLength(); }
    }
    tmp.ShrRound(shift, mode);
  }

  lemma RoomParts(m: nat, e: int, radix1: nat, radixShift: nat, f: int, cap: nat)
    requires IsFactor(radix1) && Room(m, e, radix1, radixShift, f, cap)
    ensures cap >= 2
    ensures m == 0 && (radix1 == 1 || f >= 0) ==> 1 + (e + f * radixShift + 63) / 64 <= cap
    ensures radix1 == 1 ==> (e + f * radixShift > 0 ==> m * Pow(2, e + f * radixShift) < Pow(BASE, cap - 1))
    ensures radix1 != 1 && f >= 0 ==>
      var v := m * Pow(radix1, f);
      v < Pow(BASE, cap) && (e + f * radixShift > 0 ==> v * Pow(2, e + f * radixShift) < Pow(BASE, cap - 1))
    ensures radix1 != 1 && f < 0 ==> 1 + (DownShift(radix1, radixShift, -f, true, e, BitLen(m)) + 63) / 64 <= cap
  {
    hide Pow, DownShift;
    PowUnfold(radix1, 0);
  }

  /** What mul_pow leaves, shifted by what it leaves to shift, rounds as the exact value does. */
  lemma LastShift(mode: Mode, m: nat, e: int, radix1: nat, radixShift: nat, f: int, v: nat, shift: int)
    requires IsFactor(radix1)
    requires radix1 == 1 ==> v == m && shift == -e - f * radixShift
    requires radix1 != 1 && f >= 0 ==> v == m * Pow(radix1, f) && shift == -e - f * radixShift
    requires radix1 != 1 && f < 0 ==>
      var s := DownShift(radix1, radixShift, -f, true, e, BitLen(m));
      v == Divided(m, s, radix1, -f) && shift == -e - f * radixShift + s
    ensures radix1 * Pow(2, radixShift) >= 1
    ensures shift < 0 ==> (radix1 == 1 || f >= 0) && (m > 0 <==> v > 0)
    ensures RoundShift(mode, v, shift) == Round(mode, Scaled(m, e, radix1 * Pow(2, radixShift), f))
  {
    hide Pow, Scaled, Round, RoundQuot, Sticky, BitLen, DownShift, Divided;
    if radix1 == 1 || f >= 0 {
      UpRounded(mode, m, e, radix1, radixShift, f, v);
      if radix1 != 1 {
        PowPositive(radix1, f);
        if m > 0 { MulMono(1, m, 1, Pow(radix1, f)); }
      }
    } else {
      DownRounded(mode, m, e, radix1, radixShift, f, shift);
    }
  }

  /** Without division the scaled number is exact and only the last shift rounds. */
  lemma UpRounded(mode: Mode, m: nat, e: int, radix1: nat, radixShift: nat, f: int, v: nat)
    requires IsFactor(radix1) && (radix1 == 1 || f >= 0)
    requires v == if radix1 == 1 then m else m * Pow(radix1, f)
    ensures radix1 * Pow(2, radixShift) >= 1
    ensures
      var k := e + f * radixShift;
      var x := Scaled(m, e, radix1 * Pow(2, radixShift), f);
      && (k >= 0 ==> Round(mode, x) == v * Pow(2, k))
      && (k < 0 ==> Pow(2, -k) > 0 && Round(mode, x) == RoundQuot(mode, v, Pow(2, -k)))
  {
    hide Pow, Pw, Scaled, Round, RoundQuot;
    if radix1 == 1 {
      ScaledFactors(m, e, 1, radixShift, f);
      PwOne(f);
      TimesOne(m as real * Pw(2, e + f * radixShift), Pw(1, f));
    } else {
      ScaledUp(m, e, radix1, radixShift, f);
    }
    RoundPow2(mode, v, e + f * radixShift, Scaled(m, e, radix1 * Pow(2, radixShift), f));
  }

  lemma {:induction false} PwOne(k: int)
    ensures Pw(1, k) == 1.0
    decreases if k >= 0 then k else -k
  {
    if k > 0 { PwOne(k - 1); }
    if k < 0 { PwOne(k + 1); }
  }

  /** With division at least two guard bits remain below the rounding position. */
  lemma DownRounded(mode: Mode, m: nat, e: int, radix1: nat, radixShift: nat, f: int, shift: int)
    requires IsFactor(radix1) && radix1 != 1 && f < 0
    requires shift == -e - f * radixShift + DownShift(radix1, radixShift, -f, true, e, BitLen(m))
    ensures shift >= 2 && radix1 * Pow(2, radixShift) >= 1
    ensures
      var s := DownShift(radix1, radixShift, -f, true, e, BitLen(m));
      RoundShift(mode, Divided(m, s, radix1, -f), shift) == Round(mode, Scaled(m, e, radix1 * Pow(2, radixShift), f))
  {
    hide Pow, Pw, Scaled, Round, RoundQuot, Sticky, BitLen, Divisions;
    var s := DownShift(radix1, radixShift, -f, true, e, BitLen(m));
    NegMul(f, radixShift);
    assert shift >= 2;
    var d, q := Pow(radix1, -f), Pow(2, shift);
    PowPositive(2, shift);
    PowPositive(radix1, -f);
    FourDivides(shift);
    StickySound(mode, m * Pow(2, s), d, q);
    ScaledDown(m, e, radix1, radixShift, f, s, shift);
    RoundQuotReal(mode, m * Pow(2, s), d * q);
  }

  lemma NegMul(f: int, k: int)
    ensures (-f) * k == -(f * k)
  {}

  lemma FourDivides(k: nat)
    requires k >= 2
    ensures Pow(2, k) % 4 == 0
  {
    assert Pow(2, k) == 2 * (2 * Pow(2, k - 2));
  }

  // ----- round_to_d -----

  /** What round_to_d computes on the number `v * 2^-eOffset`, in bits. */
  function BitsToDouble(mode: Mode, v: nat, eOffset: int): (d: (nat, int)) {
    if v == 0 then (0, 0)
    else
      var k := BitLen(v) - eOffset;
      Normalise(RoundShift(mode, v, BitLen(v) - Precision(k)), Precision(k), k)
  }

  /** round_to_d. */
  method RoundToD(a: Mpb, eOffset: int, mode: Mode) returns (m: Limb, e: int)
    requires a.Valid() && a.Norm() && a.tab.Length >= 2
    modifies a, a.tab
    ensures a.Valid() && (m, e) == BitsToDouble(mode, old(a.Value()), eOffset)
  {
    hide Pow, BitLen, RoundShift, Mpb.Value, Val, Normalise, BitsToDouble;
    a.ZeroForm();
    ghost var v := a.Value();
    BitsToDoubleIs(mode, v, eOffset);
    if a.tab[0] == 0 && a.len == 1 {
      m, e := 0, 0;
    } else {
      var k := a.FloorLog2();
      e := k + 1 - eOffset;
      var prec := if e < -1021 then 53 - (-1021 - e) else 53;
      BitsRange(mode, v, eOffset);
      a.ShortForm(prec);
      var n := KeptLimb(a, k + 1 - prec, mode);
      m, e := RestoreBits(n, prec, e);
    }
  }

  /** The bits that are kept, as one limb. */
  method KeptLimb(a: Mpb, shift: int, mode: Mode) returns (n: Limb)
    requires a.Valid() && a.tab.Length >= 2 && RoundShift(mode, a.Value(), shift) < BASE
    requires shift < 0 ==> a.len == 1 && -shift <= 64
    modifies a, a.tab
    ensures a.Valid() && n == RoundShift(mode, old(a.Value()), shift)
  {
    hide RoundShift, Mpb.Value;
    a.ShrRound(shift, mode);
    n := a.GetU64();
  }

  lemma BitsToDoubleIs(mode: Mode, v: nat, eOffset: int)
    ensures v == 0 ==> BitsToDouble(mode, v, eOffset) == (0, 0)
    ensures v > 0 ==>
      var k := BitLen(v) - eOffset;
      BitsToDouble(mode, v, eOffset) == Normalise(RoundShift(mode, v, BitLen(v) - Precision(k)), Precision(k), k)
  {
    hide Pow, BitLen, RoundShift, Normalise;
  }

  /** The shift back to 53 bits and the carry at the end of round_to_d. */
  method RestoreBits(n: Limb, prec: int, e0: int) returns (m: Limb, e: int)
    requires prec <= 53 && n * Pow(2, 53 - prec) <= TWO53
    ensures (m, e) == Normalise(n, prec, e0)
  {
    hide Pow;
    e := e0;
    m := n * Pow(2, 53 - prec) % BASE;
    if m >= TWO53 {
      m := m / 2;
      e := e + 1;
    }
  }

  /** The exact value of a scaled number. */
  ghost function Times(v: nat, k: int): (x: real)
    ensures x >= 0.0
  {
    v as real * Pw(2, k)
  }

  lemma TimesExp(v: nat, k: int)
    requires v > 0
    ensures Times(v, k) > 0.0 && IsExp2(Times(v, k), BitLen(v) + k)
  {
    hide Pw, Pow, BitLen;
    var b := BitLen(v);
    PwNat(2, b);
    PwNat(2, b - 1);
    PwAdd(2, b, k);
    PwAdd(2, b - 1, k);
    assert b - 1 + k == b + k - 1;
    ScaleRange(v as real, Pow(2, b - 1) as real, Pow(2, b) as real, Pw(2, k), Pw(2, b + k - 1), Pw(2, b + k));
  }

  /** Rounding known units at a known exponent. */
  lemma ToDoubleVia(mode: Mode, x: real, k: int, y: real, n: nat)
    requires x > 0.0 && IsExp2(x, k) && y == x * Pw(2, -UlpExp(k)) && y >= 0.0 && n == Round(mode, y)
    ensures ToDouble(mode, x) == Normalise(n, Precision(k), k)
  {
    hide Pw, Round, Normalise;
    Exp2Unique(x, Exp2(x), k);
    UnitsRange(x);
    assert Units(mode, x) == n by { UnitsIs(mode, x, k, y); }
  }

  /** round_to_d rounds the number it is given to the nearest double. */
  lemma BitsToDoubleExact(mode: Mode, v: nat, eOffset: int)
    ensures BitsToDouble(mode, v, eOffset) == ToDouble(mode, Times(v, -eOffset))
  {
    hide Pw, Pow, BitLen, Round, RoundQuot, Normalise;
    var x := Times(v, -eOffset);
    if v == 0 {
      assert x == 0.0;
    } else {
      TimesExp(v, -eOffset);
      var k := BitLen(v) - eOffset;
      var shift := BitLen(v) - Precision(k);
      PwAdd(2, -eOffset, -UlpExp(k));
      assert -eOffset + -UlpExp(k) == -shift;
      var y := v as real * Pw(2, -shift);
      RMulAssoc(v as real, Pw(2, -eOffset), Pw(2, -UlpExp(k)));
      RoundPow2(mode, v, -shift, y);
      ToDoubleVia(mode, x, k, y, RoundShift(mode, v, shift));
    }
  }

  /** The rounded mantissa fits 53 bits, or is exactly one past them. */
  lemma BitsRange(mode: Mode, v: nat, eOffset: int)
    requires v > 0
    ensures
      var k := BitLen(v) - eOffset;
      var p := Precision(k);
      var n := RoundShift(mode, v, BitLen(v) - p);
      n <= TWO53 && n * Pow(2, 53 - p) <= TWO53
  {
    hide Pw, Pow, BitLen, Round, RoundQuot;
    var k := BitLen(v) - eOffset;
    var x := Times(v, -eOffset);
    TimesExp(v, -eOffset);
    Exp2Unique(x, Exp2(x), k);
    var shift := BitLen(v) - Precision(k);
    PwAdd(2, -eOffset, -UlpExp(k));
    assert -eOffset + -UlpExp(k) == -shift;
    var y := v as real * Pw(2, -shift);
    RMulAssoc(v as real, Pw(2, -eOffset), Pw(2, -UlpExp(k)));
    RoundPow2(mode, v, -shift, y);
    UnitsIs(mode, x, k, y);
    UnitsBound(mode, x);
    var n, q := RoundShift(mode, v, shift), Pow(2, 53 - Precision(k));
    PowPositive(2, 53 - Precision(k));
    MulMono(n, n, 1, q);
  }

  // ----- mul_pow_round_to_d -----

  /** The limb buffer holds every intermediate number of mul_pow_round_to_d. */
  ghost predicate RoomToD(v: nat, len: nat, radix1: nat, radixShift: nat, f: int, cap: nat)
    requires IsFactor(radix1)
  {
    && cap >= 2
    && (radix1 != 1 && f >= 0 ==> v * Pow(radix1, f) < Pow(BASE, cap))
    && (radix1 != 1 && f < 0 ==> len + (DownShift(radix1, radixShift, -f, false, 55, BitLen(v)) + 63) / 64 <= cap)
  }

  /** mul_pow_round_to_d: `a * radix^f` rounded to the nearest double. */
  method MulPowRoundToD(a: Mpb, radix1: nat, radixShift: nat, f: int, mode: Mode) returns (m: Limb, e: int)
    requires IsFactor(radix1) && a.Valid() && a.Norm()
    requires RoomToD(a.Value(), a.len, radix1, radixShift, f, a.tab.Length)
    modifies a, a.tab
    ensures a.Valid() && radix1 * Pow(2, radixShift) >= 1
    ensures (m, e) == ToDouble(mode, Scaled(old(a.Value()), 0, radix1 * Pow(2, radixShift), f))
  {
    hide Pow, BitLen, Mpb.Value, DownShift, Sticky, BitsToDouble, ToDouble, Scaled, Divided;
    ghost var v0 := a.Value();
    var eOffset := MulPow(a, radix1, radixShift, f, false, 55);
    ghost var v := a.Value();
    m, e := RoundToD(a, eOffset, mode);
    if radix1 == 1 || f >= 0 {
      UpToD(mode, v0, radix1, radixShift, f, v);
    } else {
      DownToD(mode, v0, radix1, radixShift, f);
    }
  }

  lemma UpToD(mode: Mode, v0: nat, radix1: nat, radixShift: nat, f: int, v: nat)
    requires IsFactor(radix1) && (radix1 == 1 || f >= 0)
    requires v == if radix1 == 1 then v0 else v0 * Pow(radix1, f)
    ensures radix1 * Pow(2, radixShift) >= 1
    ensures BitsToDouble(mode, v, -(f * radixShift)) == ToDouble(mode, Scaled(v0, 0, radix1 * Pow(2, radixShift), f))
  {
    hide Pow, Pw, Scaled, ToDouble, BitsToDouble;
    BitsToDoubleExact(mode, v, -(f * radixShift));
    assert 0 + f * radixShift == -(-(f * radixShift));
    if radix1 == 1 {
      ScaledFactors(v0, 0, 1, radixShift, f);
      PwOne(f);
      TimesOne(v0 as real * Pw(2, 0 + f * radixShift), Pw(1, f));
    } else {
      ScaledUp(v0, 0, radix1, radixShift, f);
    }
    assert Times(v, f * radixShift) == Scaled(v0, 0, radix1 * Pow(2, radixShift), f);
  }

  /** A sticky quotient of at least 56 bits rounds to the double the exact quotient rounds to. */
  lemma DownToD(mode: Mode, v0: nat, radix1: nat, radixShift: nat, f: int)
    requires IsFactor(radix1) && radix1 != 1 && f < 0
    ensures radix1 * Pow(2, radixShift) >= 1
    ensures
      var s := DownShift(radix1, radixShift, -f, false, 55, BitLen(v0));
      BitsToDouble(mode, Divided(v0, s, radix1, -f), -f * radixShift + s)
        == ToDouble(mode, Scaled(v0, 0, radix1 * Pow(2, radixShift), f))
  {
    hide Pow, Pw, Scaled, Sticky, BitLen, DownShift;
    hide BitsToDouble, ToDouble;
    var s := DownShift(radix1, radixShift, -f, false, 55, BitLen(v0));
    var n, d := v0 * Pow(2, s), Pow(radix1, -f);
    PowPositive(radix1, -f);
    PowPositive(2, radixShift);
    MulMono(1, radix1, 1, Pow(2, radixShift));
    var x := Scaled(v0, 0, radix1 * Pow(2, radixShift), f);
    var eOffset := -f * radixShift + s;
    if v0 == 0 {
      StickyZero(d);
      ScaledZero(0, radix1 * Pow(2, radixShift), f);
      ZeroToD(mode, eOffset);
    } else {
      GuardBits(v0, radix1, radixShift, f);
      NegMul(f, radixShift);
      MulNonNegative(-f, radixShift);
      ScaledDown(v0, 0, radix1, radixShift, f, s, eOffset);
      StickyToD(mode, n, d, eOffset, x);
    }
  }

  lemma ZeroToD(mode: Mode, eOffset: int)
    ensures BitsToDouble(mode, 0, eOffset) == ToDouble(mode, 0.0)
  {}

  lemma StickyZero(d: nat)
    requires d > 0
    ensures Sticky(0, d) == 0
  {}

  lemma ScaledZero(e: int, radix: nat, f: int)
    requires radix >= 1
    ensures Scaled(0, e, radix, f) == 0.0
  {
    hide Pw;
    ZeroTimes(Pw(2, e), Pw(radix, f));
  }

  lemma ZeroTimes(p: real, q: real)
    ensures (0.0 * p) * q == 0.0
  {}

  lemma StickyToD(mode: Mode, n: nat, d: nat, eOffset: nat, x: real)
    requires d > 0 && Sticky(n, d) >= Pow(2, 55)
    requires d * Pow(2, eOffset) > 0 && x == n as real / (d * Pow(2, eOffset)) as real
    ensures x >= 0.0 && BitsToDouble(mode, Sticky(n, d), eOffset) == ToDouble(mode, x)
  {
    hide Pow, Pw, ToDouble, Sticky, BitLen, Normalise, RoundQuot, Round;
    var v := Sticky(n, d);
    var b := BitLen(v);
    var k := b - eOffset;
    var shift := b - Precision(k);
    PowPositive(2, 55);
    if b < 56 { PowMono(2, b, 55); }
    StickyBits(n, d);
    StickyExp(n, d, eOffset, x, b);
    PowPositive(2, shift);
    FourDivides(shift);
    StickySound(mode, n, d, Pow(2, shift));
    RoundQuotReal(mode, n, d * Pow(2, shift));
    var y := n as real / (d * Pow(2, shift)) as real;
    assert -UlpExp(k) == eOffset - shift;
    Rescale(n, d, eOffset, shift, x, y);
    ToDoubleVia(mode, x, k, y, RoundQuot(mode, n, d * Pow(2, shift)));
  }

  /** Between powers of two a quotient and its sticky form agree. */
  lemma StickyBits(n: nat, d: nat)
    requires d > 0 && BitLen(Sticky(n, d)) >= 2
    ensures
      var b := BitLen(Sticky(n, d));
      Pow(2, b - 1) * d <= n < Pow(2, b) * d
  {
    hide Pow, BitLen, Sticky;
    var v := Sticky(n, d);
    var b := BitLen(v);
    PowUnfold(2, b - 1);
    PowUnfold(2, b - 2);
    var q := StickyBetween(n, d, Pow(2, b - 2), Pow(2, b - 1));
    MulMono(Pow(2, b - 1), q, d, d);
    MulMono(q + 1, Pow(2, b), d, d);
    assert (q + 1) * d == q * d + d;
  }

  lemma StickyBetween(n: nat, d: nat, lo: nat, hi: nat) returns (q: nat)
    requires d > 0 && 2 * lo <= Sticky(n, d) < 2 * hi
    ensures 2 * lo <= q < 2 * hi && q * d <= n < q * d + d
  {
    q := n / d;
    assert n == q * d + n % d;
  }

  lemma StickyExp(n: nat, d: nat, eOffset: nat, x: real, b: nat)
    requires b >= 1 && Pow(2, b - 1) * d <= n < Pow(2, b) * d
    requires d * Pow(2, eOffset) > 0 && x == n as real / (d * Pow(2, eOffset)) as real
    ensures x > 0.0 && IsExp2(x, b - eOffset)
  {
    hide Pow, Pw;
    var t := d * Pow(2, eOffset);
    var k := b - eOffset;
    PowerOver(b, eOffset, d);
    PowerOver(b - 1, eOffset, d);
    QuotientBetween(n as real, t as real, x, Pw(2, k - 1), Pw(2, k), (Pow(2, b - 1) * d) as real,
                    (Pow(2, b) * d) as real);
  }

  lemma PowerOver(b: nat, eOffset: nat, d: nat)
    ensures Pw(2, b - eOffset) * (d * Pow(2, eOffset)) as real == (Pow(2, b) * d) as real
  {
    hide Pow, Pw;
    PwNat(2, b);
    PwNat(2, eOffset);
    PwAdd(2, b - eOffset, eOffset);
    assert b - eOffset + eOffset == b;
    CastProduct(d, Pow(2, eOffset), Pow(2, eOffset) as real);
    CastProduct(Pow(2, b), d, d as real);
    Swap(Pw(2, b - eOffset), d as real, Pow(2, eOffset) as real);
    RMulAssoc(Pw(2, b - eOffset), d as real, Pow(2, eOffset) as real);
  }

  lemma QuotientBetween(n: real, t: real, x: real, lo: real, hi: real, lot: real, hit: real)
    requires t > 0.0 && x == n / t && lo > 0.0 && lot == lo * t && hit == hi * t && lot <= n < hit
    ensures 0.0 < lo <= x < hi
  {
    Reciprocal(t, x, n);
    if x < lo { RMulStrict(x, lo, t); }
    if x >= hi { RMulMono(hi, x, t); }
  }

  lemma Rescale(n: nat, d: nat, i: nat, j: nat, x: real, y: real)
    requires d * Pow(2, i) > 0 && d * Pow(2, j) > 0
    requires x == n as real / (d * Pow(2, i)) as real && y == n as real / (d * Pow(2, j)) as real
    ensures y == x * Pw(2, i - j)
  {
    hide Pow, Pw;
    var p := Pw(2, i - j);
    PowerOver(i, j, d);
    var ti, tj := (d * Pow(2, i)) as real, (d * Pow(2, j)) as real;
    assert (Pow(2, i) * d) as real == ti;
    Reciprocal(ti, x, n as real);
    ScaleQuotient(x, p, ti, tj, n as real, y);
  }

  lemma ScaleQuotient(x: real, p: real, ti: real, tj: real, n: real, y: real)
    requires tj > 0.0 && p * tj == ti && x * ti == n && y == n / tj
    ensures y == x * p
  {
    RMulAssoc(x, p, tj);
    DivideBack(x * p, tj, n);
  }

  /** Dividing leaves at least 56 bits, so that three bits lie below the 53 that are kept. */
  lemma GuardBits(v0: nat, radix1: nat, radixShift: nat, f: int)
    requires IsFactor(radix1) && radix1 != 1 && f < 0 && v0 > 0
    ensures Divided(v0, DownShift(radix1, radixShift, -f, false, 55, BitLen(v0)), radix1, -f) >= Pow(2, 55)
  {
    hide Pow, BitLen, DigitsPerLimb;
    var d, t := Pow(radix1, -f), BitLen(v0) - 1;
    var l := Divisions(radix1, -f);
    var extra := Max(55 - t, 0);
    var s := l * 64 + extra;
    DigitsTable(radix1);
    PowPositive(radix1, -f);
    assert d <= Pow(2, l * 64) by { DivisorBound(radix1, -f, l); }
    PowAdd(2, l * 64, extra);
    assert v0 * Pow(2, extra) >= Pow(2, 55) by {
      PowAdd(2, t, extra);
      PowPositive(2, extra);
      PowMono(2, 55, t + extra);
      MulMono(Pow(2, t), v0, Pow(2, extra), Pow(2, extra));
    }
    QuotientAtLeast(v0, Pow(2, l * 64), Pow(2, extra), d, Pow(2, 55), Pow(2, s));
  }

  lemma QuotientAtLeast(v0: nat, b: nat, x: nat, d: nat, t: nat, p: nat)
    requires 0 < d <= b && p == b * x && v0 * x >= t
    ensures Sticky(v0 * p, d) >= t
  {
    var n, w := v0 * p, v0 * x;
    MulAssoc(v0, x, b);
    assert x * b == p;
    MulMono(t, w, d, b);
    QuotientFrom(n, d, t);
  }

  lemma QuotientFrom(n: nat, d: nat, t: nat)
    requires d > 0 && n >= t * d
    ensures n / d >= t && Sticky(n, d) >= t
  {
    var q := n / d;
    assert n == q * d + n % d;
    OneMoreTimes(q, d, q * d);
    if q < t { MulMono(q + 1, t, d, d); }
  }

  /** Each limb division divides by less than the limb base. */
  lemma DivisorBound(radix1: nat, f: nat, l: nat)
    requires IsFactor(radix1) && radix1 != 1 && l == Divisions(radix1, f)
    ensures Pow(radix1, f) <= Pow(2, l * 64)
  {
    hide Pow, DigitsPerLimb;
    DigitsTable(radix1);
    var d := DigitsPerLimb(radix1);
    CeilDiv(f, d, l);
    PowMono(radix1, f, d * l);
    PowPow(radix1, d, l);
    PowBaseMono(Pow(radix1, d), BASE, l);
    PowBase(l);
  }

  lemma CeilDiv(f: nat, d: nat, l: nat)
    requires d > 0 && l == (f + d - 1) / d
    ensures f <= d * l
  {
    var g := f + d - 1;
    assert g == d * l + g % d;
  }

  lemma {:induction false} PowBaseMono(a: nat, b: nat, k: nat)
    requires a <= b
    ensures Pow(a, k) <= Pow(b, k)
    decreases k
  {
    if k > 0 {
      PowBaseMono(a, b, k - 1);
      MulMono(a, b, Pow(a, k - 1), Pow(b, k - 1));
    }
  }
}
