/** Rounding a quotient through its sticky form at any binary exponent, as js_atod of src/dtoa.c needs it. */
module StickyRounding {
  import opened Powers
  import opened Rounding
  import opened MpbModel
  import opened Doubles
  import opened RoundedScaling

  /** A sticky quotient of at least 56 bits rounds as the exact quotient does, at any binary exponent. */
  lemma StickyAnyOffset(mode: Mode, n: nat, d: nat, eOffset: int, x0: real, x: real)
    requires d > 0 && Sticky(n, d) >= Pow(2, 55) && x0 == n as real / d as real && x == x0 * Pw(2, -eOffset)
    ensures x >= 0.0 && BitsToDouble(mode, Sticky(n, d), eOffset) == ToDouble(mode, x)
  {
    hide Pow, Pw, ToDouble, Sticky, BitLen, Normalise, RoundQuot, Round;
    var v := Sticky(n, d);
    var b := BitLen(v);
    var k := b - eOffset;
    var shift := b - Precision(k);
    PowPositive(2, 55);
    if b < 56 { PowMono(2, b, 55); }
    StickyBits(n, d);
    PowUnfold(2, 0);
    StickyExp(n, d, 0, x0, b);
    ShiftExp(x0, b, -eOffset, x);
    PowPositive(2, shift);
    FourDivides(shift);
    StickySound(mode, n, d, Pow(2, shift));
    RoundQuotReal(mode, n, d * Pow(2, shift));
    var y := n as real / (d * Pow(2, shift)) as real;
    Rescale(n, d, 0, shift, x0, y);
    PwAdd(2, -eOffset, eOffset - shift);
    assert -eOffset + (eOffset - shift) == -shift && 0 - shift == -shift && -UlpExp(k) == eOffset - shift;
    RMulAssoc(x0, Pw(2, -eOffset), Pw(2, eOffset - shift));
    ToDoubleVia(mode, x, k, y, RoundQuot(mode, n, d * Pow(2, shift)));
  }

  lemma ShiftExp(x0: real, b: int, j: int, x: real)
    requires IsExp2(x0, b) && x == x0 * Pw(2, j)
    ensures x > 0.0 && IsExp2(x, b + j)
  {
    hide Pw;
    PwAdd(2, b, j);
    PwAdd(2, b - 1, j);
    assert b - 1 + j == b + j - 1;
    ScaleRange(x0, Pw(2, b - 1), Pw(2, b), Pw(2, j), Pw(2, b + j - 1), Pw(2, b + j));
  }
}
