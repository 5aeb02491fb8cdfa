/** The 64-bit patterns of doubles: taken apart by js_dtoa and put together by js_atod in src/dtoa.c. */
module DoubleBits {
  import opened Powers
  import opened Rounding
  import opened Limbs
  import opened MpbModel
  import opened Doubles
  import opened Nearest

  const TWO52: nat := 0x10_0000_0000_0000
  const INF: nat := 0x7FF0_0000_0000_0000
  const SIGN: nat := 0x8000_0000_0000_0000
  const NAN: nat := 0x7FF8_0000_0000_0000

  /** The pattern js_atod builds for the pair `(m, e)`, without the sign. */
  function Magnitude(m: nat, e: int): (a: nat) {
    if m == 0 then 0
    else if e > 1024 then INF
    else if e < -1073 then 0
    else if e < -1021 then PowPositive(2, -e - 1021); m / Pow(2, -e - 1021)
    else (e + 1022) * TWO52 + m % TWO52
  }

  /** With the sign in bit 63. */
  function Encode(neg: bool, d: (nat, int)): (a: nat) {
    Magnitude(d.0, d.1) + if neg then SIGN else 0
  }

  /** What js_dtoa reads from a pattern: not finite, or a sign and a pair. */
  datatype Parts = NotFinite | Finite(neg: bool, m: nat, e: int)

  function Decode(a: nat): (p: Parts)
    requires a < BASE
  {
    var neg, e, m := a / SIGN == 1, a / TWO52 % 0x800, a % TWO52;
    if e == 0x7FF then NotFinite
    else if e == 0 && m == 0 then Finite(neg, 0, 0)
    else if e == 0 then
      var l := 53 - BitLen(m);
      Subnormal(m);
      Finite(neg, m * Pow(2, l), -1021 - l)
    else Finite(neg, m + TWO52, e - 1022)
  }

  lemma Subnormal(m: nat)
    requires 0 < m < TWO52
    ensures 1 <= BitLen(m) <= 52
    ensures
      var l := 53 - BitLen(m);
      Canonical(m * Pow(2, l), -1021 - l) && Pow(2, l) > 0 && (m * Pow(2, l)) / Pow(2, l) == m
  {
    hide Pow, BitLen;
    Two53();
    BitLenPositive(m);
    var b := BitLen(m);
    if b > 52 { PowMono(2, 52, b - 1); }
    var l := 53 - b;
    PowPositive(2, l);
    PowAdd(2, b, l);
    PowAdd(2, b - 1, l);
    StrictMul(m, Pow(2, b), Pow(2, l));
    MulMono(Pow(2, b - 1), m, Pow(2, l), Pow(2, l));
    DivModUnique(m * Pow(2, l), Pow(2, l), m, 0);
  }

  /** A finite pattern decodes to zero or a canonical pair, which encodes to the pattern. */
  lemma EncodeDecode(a: nat)
    requires a < BASE && Decode(a).Finite?
    ensures
      var d := Decode(a);
      && ((d.m == 0 && d.e == 0) || (Canonical(d.m, d.e) && d.e <= 1024))
      && Encode(d.neg, (d.m, d.e)) == a
  {
    hide Pow, BitLen;
    Fields(a);
    var e, m := a / TWO52 % 0x800, a % TWO52;
    if e == 0 && m != 0 { Subnormal(m); }
  }

  lemma Fields(a: nat)
    requires a < BASE
    ensures a == (if a / SIGN == 1 then SIGN else 0) + a / TWO52 % 0x800 * TWO52 + a % TWO52
  {}

  /** A canonical finite pair survives encoding. */
  lemma DecodeEncode(neg: bool, m: nat, e: int)
    requires (m == 0 && e == 0) || (Canonical(m, e) && e <= 1024)
    ensures Encode(neg, (m, e)) < BASE && Decode(Encode(neg, (m, e))) == Finite(neg, m, e)
  {
    hide Pow, BitLen, Decode;
    var a, s := Magnitude(m, e), if neg then 1 else 0;
    if m == 0 {
      DecodeFields(a + s * SIGN, s, 0, 0);
    } else if e < -1021 {
      SmallPattern(s, m, e);
    } else {
      DecodeFields(a + s * SIGN, s, e + 1022, m % TWO52);
    }
  }

  lemma SmallPattern(s: nat, m: nat, e: int)
    requires s <= 1 && Canonical(m, e) && e < -1021
    ensures Magnitude(m, e) + s * SIGN < BASE && Decode(Magnitude(m, e) + s * SIGN) == Finite(s == 1, m, e)
  {
    hide Pow, BitLen, Decode;
    var a := Magnitude(m, e);
    Two53();
    UnitsLength(m, -e - 1021);
    DecodeFields(a + s * SIGN, s, 0, a);
  }

  lemma DecodeFields(a: nat, s: nat, f: nat, m: nat)
    requires s <= 1 && f < 0x7FF && m < TWO52 && a == f * TWO52 + m + s * SIGN
    ensures a < BASE
    ensures f > 0 ==> Decode(a) == Finite(s == 1, m + TWO52, f - 1022)
    ensures f == 0 && m == 0 ==> Decode(a) == Finite(s == 1, 0, 0)
    ensures f == 0 && m > 0 ==>
      BitLen(m) <= 52 && Decode(a) == Finite(s == 1, m * Pow(2, 53 - BitLen(m)), -1021 - (53 - BitLen(m)))
  {
    hide Pow, BitLen;
    PatternFields(s, f, m);
    if f == 0 && m > 0 { Subnormal(m); }
  }

  lemma UnitsLength(m: nat, j: nat)
    requires TWO53 / 2 <= m < TWO53 && 1 <= j <= 52 && Pow(2, j) > 0 && m % Pow(2, j) == 0
    ensures 0 < m / Pow(2, j) < TWO52 && BitLen(m / Pow(2, j)) == 53 - j && m / Pow(2, j) * Pow(2, j) == m
  {
    hide Pow, BitLen;
    Two53();
    var p, u := Pow(2, j), m / Pow(2, j);
    assert m == u * p;
    PowAdd(2, 53 - j, j);
    PowAdd(2, 52 - j, j);
    if u >= Pow(2, 53 - j) { MulMono(Pow(2, 53 - j), u, p, p); }
    if u < Pow(2, 52 - j) { StrictMul(u, Pow(2, 52 - j), p); }
    BitLenUnique(u, 53 - j);
    PowMono(2, 53 - j, 52);
    PowPositive(2, 52 - j);
  }

  lemma PatternFields(s: nat, f: nat, m: nat)
    requires s <= 1 && f < 0x800 && m < TWO52
    ensures
      var a := f * TWO52 + m + s * SIGN;
      a < BASE && a / SIGN == s && a / TWO52 % 0x800 == f && a % TWO52 == m
  {}

  // ----- the two ends of the range -----

  /** From 2^1024 on every real rounds to infinity. */
  lemma HugeInfinite(x: real)
    requires x >= Pw(2, 1024)
    ensures x > 0.0 && Magnitude(ToDouble(NearestEven, x).0, ToDouble(NearestEven, x).1) == INF
  {
    hide Pw, Pow, Exp2, Units;
    UnitsBound(NearestEven, x);
    var k := Exp2(x);
    if k <= 1024 { PwMono(2, k, 1024); }
    PowUnfold(2, 0);
  }

  /** Below 2^-1075 every real rounds to zero. */
  lemma TinyZero(x: real)
    requires 0.0 <= x < Pw(2, -1075)
    ensures Magnitude(ToDouble(NearestEven, x).0, ToDouble(NearestEven, x).1) == 0
  {
    hide Pw, Pow, Exp2, Units;
    if x > 0.0 {
      UnitsBound(NearestEven, x);
      var k := Exp2(x);
      if k - 1 >= -1075 { PwMono(2, -1075, k - 1); }
    }
  }
}
