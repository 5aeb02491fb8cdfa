/** The multi-limb integer loops of src/dtoa.c over 64-bit limbs, least significant limb first. */
module Limbs {
  import opened Powers
  import opened Rounding

  const BASE: int := 0x1_0000_0000_0000_0000

  type Limb = x: int | 0 <= x < 0x1_0000_0000_0000_0000

  /** The number a limb sequence stands for. */
  ghost function Val(s: seq<Limb>): nat {
    if s == [] then 0 else s[0] + BASE * Val(s[1..])
  }

  lemma {:induction false} ValConcat(s: seq<Limb>, t: seq<Limb>)
    ensures Val(s + t) == Val(s) + Pow(BASE, |s|) * Val(t)
    decreases |s|
  {
    if s == [] {
      assert s + t == t;
    } else {
      assert (s + t)[1..] == s[1..] + t;
      ValConcat(s[1..], t);
      MulAssoc(BASE, Pow(BASE, |s| - 1), Val(t));
    }
  }

  lemma ValHead(s: seq<Limb>, i: nat, n: nat)
    requires i < n <= |s|
    ensures Val(s[i..n]) == s[i] + BASE * Val(s[i + 1..n])
  {
    assert s[i..n][1..] == s[i + 1..n];
  }

  lemma ValLast(s: seq<Limb>, i: nat)
    requires i < |s|
    ensures Val(s[..i + 1]) == Val(s[..i]) + Pow(BASE, i) * s[i]
  {
    assert s[..i + 1] == s[..i] + [s[i]];
    ValAppend(s[..i], s[i]);
  }

  lemma ValEmpty(s: seq<Limb>)
    requires s == []
    ensures Val(s) == 0
  {}

  lemma ValOne(x: Limb)
    ensures Val([x]) == x
  {
    assert Val([]) == 0;
  }

  lemma ValAppend(s: seq<Limb>, x: Limb)
    ensures Val(s + [x]) == Val(s) + Pow(BASE, |s|) * x
  {
    ValConcat(s, [x]);
    ValOne(x);
  }

  lemma {:induction false} ValBound(s: seq<Limb>)
    ensures Val(s) < Pow(BASE, |s|)
    decreases |s|
  {
    if s != [] {
      ValBound(s[1..]);
      MulMono(BASE, BASE, Val(s[1..]) + 1, Pow(BASE, |s| - 1));
    }
  }

  /** A non-zero top limb puts the value in the top limb's range. */
  lemma ValTop(s: seq<Limb>)
    requires |s| > 0 && s[|s| - 1] != 0
    ensures Val(s) >= Pow(BASE, |s| - 1)
  {
    var k := |s| - 1;
    assert s == s[..k] + [s[k]];
    ValAppend(s[..k], s[k]);
    MulMono(Pow(BASE, k), Pow(BASE, k), 1, s[k]);
  }

  // ----- bitwise or -----

  /** The C operator `|` on unsigned values. */
  function Or(a: nat, b: nat): (r: nat)
    decreases a + b
  {
    if a == 0 && b == 0 then 0
    else (if a % 2 == 1 || b % 2 == 1 then 1 else 0) + 2 * Or(a / 2, b / 2)
  }

  lemma {:induction false} OrZero(a: nat, b: nat)
    ensures Or(a, b) == 0 <==> a == 0 && b == 0
    decreases a + b
  {
    if a != 0 || b != 0 {
      OrZero(a / 2, b / 2);
    }
  }

  lemma {:induction false} OrSame(a: nat)
    ensures Or(a, 0) == a
    decreases a
  {
    if a != 0 { OrSame(a / 2); }
  }

  /** Setting the low bit. */
  lemma OrOne(a: nat)
    ensures Or(a, 1) == a + 1 - a % 2
  {
    OrSame(a / 2);
  }

  /** Or of values without a common bit is their sum. */
  lemma {:induction false} OrDisjoint(hi: nat, lo: nat, k: nat)
    requires lo < Pow(2, k)
    ensures Or(hi * Pow(2, k), lo) == hi * Pow(2, k) + lo
    ensures Or(lo, hi * Pow(2, k)) == hi * Pow(2, k) + lo
    decreases k
  {
    if k == 0 {
      OrSame(hi);
      OrComm(hi, 0);
    } else {
      var p := Pow(2, k - 1);
      assert hi * Pow(2, k) == 2 * (hi * p) by { assert Pow(2, k) == 2 * p; }
      OrDisjoint(hi, lo / 2, k - 1);
      var a := hi * Pow(2, k);
      assert a / 2 == hi * p && a % 2 == 0;
    }
  }

  lemma {:induction false} OrComm(a: nat, b: nat)
    ensures Or(a, b) == Or(b, a)
    decreases a + b
  {
    if a != 0 || b != 0 { OrComm(a / 2, b / 2); }
  }

  lemma {:induction false} OrBound(a: nat, b: nat, k: nat)
    requires a < Pow(2, k) && b < Pow(2, k)
    ensures Or(a, b) < Pow(2, k)
    decreases k
  {
    if k > 0 && (a != 0 || b != 0) {
      OrBound(a / 2, b / 2, k - 1);
    }
  }

  /** The C operator `&` on unsigned values. */
  function And(a: nat, b: nat): (r: nat)
    decreases a
  {
    if a == 0 then 0
    else (if a % 2 == 1 && b % 2 == 1 then 1 else 0) + 2 * And(a / 2, b / 2)
  }

  /** Masking with all ones keeps the value, masking with zero clears it. */
  lemma {:induction false} AndMask(k: nat, b: nat)
    requires b < Pow(2, k)
    ensures Pow(2, k) >= 1
    ensures And(Pow(2, k) - 1, b) == b && And(0, b) == 0
    decreases k
  {
    PowPositive(2, k);
    if k > 0 {
      AndMask(k - 1, b / 2);
      var m := Pow(2, k) - 1;
      assert m / 2 == Pow(2, k - 1) - 1 && m % 2 == 1;
    }
  }

  lemma Base64()
    ensures Pow(2, 64) == BASE
  {
    SquareIsPow(2, 64);
    assert Square(2, 64) == BASE;
  }

  // ----- addition and multiplication by one limb -----

  /** mp_add_ui: add a limb to the number, returning the carry out. */
  method AddUi(tab: array<Limb>, b: Limb, n: nat) returns (k: Limb)
    requires n <= tab.Length
    modifies tab
    ensures Val(tab[..n]) + k * Pow(BASE, n) == old(Val(tab[..n])) + b
    ensures forall j :: n <= j < tab.Length ==> tab[j] == old(tab[j])
  {
    hide Val, Pow;
    k := b;
    var i := 0;
    assert tab[..0] == [];
    PowUnfold(BASE, 0);
    while i < n
      invariant 0 <= i <= n
      invariant Val(tab[..i]) + k * Pow(BASE, i) == old(Val(tab[..i])) + b
      invariant forall j :: i <= j < tab.Length ==> tab[j] == old(tab[j])
    {
      if k == 0 {
        break;
      }
      ghost var before, x: int, k0: int := tab[..i], tab[i], k;
      var a := (tab[i] + k) % BASE;
      k := if a < k then 1 else 0;
      tab[i] := a;
      assert tab[..i] == before;
      assert tab[..i + 1] == before + [a];
      ValAppend(before, a);
      assert old(tab[..i + 1]) == old(tab[..i]) + [x];
      ValAppend(old(tab[..i]), x);
      CarryStep(Pow(BASE, i), a, k, x, k0);
      PowUnfold(BASE, i);
      i := i + 1;
    }
    assert tab[i..n] == old(tab[i..n]);
    assert tab[..n] == tab[..i] + tab[i..n];
    assert old(tab[..n]) == old(tab[..i]) + old(tab[i..n]);
    ValConcat(tab[..i], tab[i..n]);
    ValConcat(old(tab[..i]), old(tab[i..n]));
  }

  lemma CarryStep(p: int, a: int, k: int, x: int, k0: int)
    requires a + k * BASE == x + k0
    ensures p * a + k * (BASE * p) == p * x + k0 * p
  {
    assert p * (a + k * BASE) == p * (x + k0);
  }

  /** mp_mul1: the product of a number and a limb plus a limb; the high limb is returned. */
  method Mul1(tabr: array<Limb>, taba: array<Limb>, n: nat, b: Limb, l0: Limb) returns (l: Limb)
    requires n <= tabr.Length && n <= taba.Length
    modifies tabr
    ensures Val(tabr[..n]) + l * Pow(BASE, n) == old(Val(taba[..n])) * b + l0
    ensures forall j :: n <= j < tabr.Length ==> tabr[j] == old(tabr[j])
  {
    hide Val, Pow;
    l := l0;
    var i := 0;
    PowUnfold(BASE, 0);
    ValEmpty(tabr[..0]);
    ValEmpty(taba[..0]);
    while i < n
      invariant 0 <= i <= n
      invariant Val(tabr[..i]) + l * Pow(BASE, i) == old(Val(taba[..i])) * b + l0
      invariant forall j :: i <= j < taba.Length ==> taba[j] == old(taba[j])
      invariant forall j :: i <= j < tabr.Length ==> tabr[j] == old(tabr[j])
    {
      ghost var before := tabr[..i];
      ghost var x: int, k0: int := taba[i], l;
      MulMono(0, x, 0, b);
      MulMono(x, BASE - 1, b, BASE - 1);
      var t := taba[i] * b + l;
      l := t / BASE;
      tabr[i] := t % BASE;
      assert tabr[..i] == before;
      assert tabr[..i + 1] == before + [t % BASE];
      ValAppend(before, t % BASE);
      assert old(taba[..i + 1]) == old(taba[..i]) + [x];
      ValAppend(old(taba[..i]), x);
      MulStep(Pow(BASE, i), t % BASE, l, x, b, k0, old(Val(taba[..i])));
      PowUnfold(BASE, i);
      i := i + 1;
    }
  }

  lemma MulStep(p: int, a: int, l: int, x: int, b: int, k0: int, v: int)
    requires a + l * BASE == x * b + k0
    ensures p * a + l * (BASE * p) == (p * x) * b + k0 * p
    ensures (v + p * x) * b == v * b + (p * x) * b
  {
    assert p * (a + l * BASE) == p * (x * b + k0);
  }

  // ----- shifts by less than one limb -----

  /** mp_shl: multiply by a power of two below the limb size; the bits shifted out are returned. */
  method Shl(tabr: array<Limb>, tab: array<Limb>, n: nat, shift: nat, low: Limb) returns (l: Limb)
    requires n <= tabr.Length && n <= tab.Length
    requires 1 <= shift < 64 && low < Pow(2, shift)
    modifies tabr
    ensures l < Pow(2, shift)
    ensures Val(tabr[..n]) + l * Pow(BASE, n) == old(Val(tab[..n])) * Pow(2, shift) + low
    ensures forall j :: n <= j < tabr.Length ==> tabr[j] == old(tabr[j])
  {
    var p, p2 := Pow(2, shift), Pow(2, 64 - shift);
    SplitBase(shift);
    l := low;
    var i := 0;
    while i < n
      invariant 0 <= i <= n
      invariant l < p
      invariant Val(tabr[..i]) + l * Pow(BASE, i) == old(Val(tab[..i])) * p + low
      invariant forall j :: i <= j < tab.Length ==> tab[j] == old(tab[j])
      invariant forall j :: i <= j < tabr.Length ==> tabr[j] == old(tabr[j])
    {
      ghost var before := tabr[..i];
      ghost var x: int, k0: int := tab[i], l;
      var a := tab[i];
      ShlLimb(a, l, shift);
      var y := Or(a * p % BASE, l);
      tabr[i] := y;
      l := a / p2;
      assert tabr[..i] == before;
      assert tabr[..i + 1] == before + [y];
      ValAppend(before, y);
      assert old(tab[..i + 1]) == old(tab[..i]) + [x];
      ValAppend(old(tab[..i]), x);
      MulStep(Pow(BASE, i), y, l, x, p, k0, old(Val(tab[..i])));
      i := i + 1;
    }
  }

  lemma SplitBase(shift: nat)
    requires shift <= 64
    ensures Pow(2, shift) > 0 && Pow(2, 64 - shift) > 0
    ensures Pow(2, shift) * Pow(2, 64 - shift) == BASE
  {
    PowPositive(2, shift);
    PowPositive(2, 64 - shift);
    PowAdd(2, shift, 64 - shift);
    Base64();
  }

  /** One limb of a left shift. */
  lemma ShlLimb(a: Limb, l: nat, shift: nat)
    requires 1 <= shift < 64 && l < Pow(2, shift)
    ensures Pow(2, 64 - shift) > 0
    ensures 0 <= Or(a * Pow(2, shift) % BASE, l) < BASE
    ensures 0 <= a / Pow(2, 64 - shift) < Pow(2, shift) <= BASE
    ensures Or(a * Pow(2, shift) % BASE, l) + a / Pow(2, 64 - shift) * BASE == a * Pow(2, shift) + l
  {
    hide Pow, Or;
    var p, p2 := Pow(2, shift), Pow(2, 64 - shift);
    SplitBase(shift);
    var h, lo := a / p2, a % p2;
    ShlParts(a, p, p2, h, lo);
    OrDisjoint(lo, l, shift);
    QuotientBelow(a, p, p2);
    MulMono(p, p, 1, p2);
  }

  /** A limb shifted left: what leaves it and what stays. */
  lemma ShlParts(a: int, p: int, p2: int, h: int, lo: int)
    requires a >= 0 && p > 0 && p2 > 0 && p * p2 == BASE && h == a / p2 && lo == a % p2
    ensures 0 <= lo * p && lo * p + p <= BASE && a * p == h * BASE + lo * p && a * p % BASE == lo * p
  {
    assert a == h * p2 + lo;
    MulAssoc(h, p2, p);
    assert (h * p2 + lo) * p == (h * p2) * p + lo * p;
    MulMono(lo + 1, p2, p, p);
    OneMoreTimes(lo, p, lo * p);
    MulMono(0, lo, 0, p);
    DivModUnique(a * p, BASE, h, lo * p);
  }

  lemma QuotientBelow(a: int, p: int, d: int)
    requires 0 <= a < p * d && d > 0
    ensures 0 <= a / d < p
  {
    var q := a / d;
    assert a >= q * d;
    if q >= p { MulMono(p, q, d, d); }
  }

  /** The low `shift` bits of a limb. */
  function LowBits(l: Limb, shift: nat): (r: Limb)
    requires shift < 64
    ensures r < Pow(2, shift)
  {
    SplitBase(shift);
    l % Pow(2, shift)
  }

  /** One limb of a right shift: the limb's high bits below the low bits of the limb above it. */
  function ShrOut(a: Limb, l: Limb, shift: nat): (y: Limb)
    requires 1 <= shift < 64
    ensures y * Pow(2, shift) + LowBits(a, shift) == LowBits(l, shift) * BASE + a
  {
    ShrLimb(a, l, shift);
    Or(a / Pow(2, shift), l * Pow(2, 64 - shift) % BASE)
  }

  /** mp_shr: divide by a power of two below the limb size; the bits shifted out are returned. */
  method Shr(tabr: array<Limb>, tab: array<Limb>, n: nat, shift: nat, high: Limb) returns (rem: Limb)
    requires n <= tabr.Length && n <= tab.Length
    requires 1 <= shift < 64 && high < Pow(2, shift)
    modifies tabr
    ensures rem < Pow(2, shift)
    ensures Val(tabr[..n]) * Pow(2, shift) + rem == old(Val(tab[..n])) + high * Pow(BASE, n)
    ensures forall j :: n <= j < tabr.Length ==> tabr[j] == old(tabr[j])
  {
    hide LowBits, ShrOut, Val, Pow;
    ghost var p, orig := Pow(2, shift), tab[..];
    var l := high;
    var i := n;
    ValEmpty(tabr[n..n]);
    ValEmpty(orig[n..n]);
    PowUnfold(BASE, 0);
    LowBitsSmall(high, shift);
    while i > 0
      invariant 0 <= i <= n
      invariant Val(tabr[i..n]) * p + LowBits(l, shift) == Val(orig[i..n]) + high * Pow(BASE, n - i)
      invariant forall j :: 0 <= j < i ==> tab[j] == orig[j]
      invariant forall j :: n <= j < tabr.Length ==> tabr[j] == old(tabr[j])
    {
      i := i - 1;
      ghost var after := tabr[i + 1..n];
      var a := tab[i];
      var y := ShrOut(a, l, shift);
      tabr[i] := y;
      assert tabr[..][i + 1..n] == after && tabr[..][i..n] == tabr[i..n];
      ValHead(tabr[..], i, n);
      ValHead(orig, i, n);
      ShrStep(Val(after), p, LowBits(l, shift), Val(orig[i + 1..n]), high, Pow(BASE, n - i - 1),
              y, a, LowBits(a, shift));
      PowUnfold(BASE, n - i - 1);
      l := a;
    }
    assert tabr[..n] == tabr[0..n] && orig[..n] == orig[0..n] == old(tab[..n]);
    rem := LowBits(l, shift);
  }

  lemma LowBitsSmall(l: Limb, shift: nat)
    requires shift < 64 && l < Pow(2, shift)
    ensures LowBits(l, shift) == l
  {
    DivModUnique(l, Pow(2, shift), 0, l);
  }

  lemma ShrStep(after: int, p: int, r: int, v: int, high: int, q: int, y: int, a: int, am: int)
    requires after * p + r == v + high * q
    requires y * p + am == r * BASE + a
    ensures (y + BASE * after) * p + am == (a + BASE * v) + high * (BASE * q)
  {
    assert BASE * (after * p + r) == BASE * (v + high * q);
    assert (y + BASE * after) * p == y * p + BASE * (after * p);
    assert high * (BASE * q) == BASE * (high * q);
  }

  /** One limb of a right shift. */
  lemma ShrLimb(a: Limb, l: Limb, shift: nat)
    requires 1 <= shift < 64
    ensures Pow(2, shift) > 0 && 0 <= a / Pow(2, shift) && 0 <= l * Pow(2, 64 - shift)
    ensures 0 <= Or(a / Pow(2, shift), l * Pow(2, 64 - shift) % BASE) < BASE
    ensures Or(a / Pow(2, shift), l * Pow(2, 64 - shift) % BASE) * Pow(2, shift) + LowBits(a, shift)
         == LowBits(l, shift) * BASE + a
  {
    hide Pow, Or;
    var p, p2 := Pow(2, shift), Pow(2, 64 - shift);
    SplitBase(shift);
    var r, h, m := LowBits(l, shift), a / p, LowBits(a, shift);
    assert a == h * p + m;
    LowPart(l, p, p2);
    assert p2 * p == BASE;
    QuotientBelow(a, p2, p);
    QuotientBelow2(r, h, p, p2);
    MulMono(0, l, 0, p2);
    assert Or(h, l * p2 % BASE) == r * p2 + h by { OrDisjoint(r, h, 64 - shift); }
    ShrSum(r, h, m, p, p2, a);
  }

  lemma ShrSum(r: int, h: int, m: int, p: int, p2: int, a: int)
    requires p * p2 == BASE && a == h * p + m
    ensures (r * p2 + h) * p + m == r * BASE + a
  {
    assert (r * p2 + h) * p == r * (p2 * p) + h * p;
  }

  lemma QuotientBelow2(r: int, h: int, p: int, p2: int)
    requires 0 <= r < p && 0 <= h < p2 && p * p2 == BASE
    ensures 0 <= r * p2 + h < BASE
  {
    MulMono(r + 1, p, p2, p2);
    assert (r + 1) * p2 == r * p2 + p2;
    MulMono(0, r, 0, p2);
  }

  lemma LowPart(l: int, p: int, p2: int)
    requires 0 <= l && p > 0 && p2 > 0 && p * p2 == BASE
    ensures l * p2 % BASE == l % p * p2
  {
    var r, q := l % p, l / p;
    assert l == q * p + r;
    assert (q * p + r) * p2 == q * (p * p2) + r * p2;
    QuotientBelow2(r, 0, p, p2);
    DivModUnique(l * p2, BASE, q, r * p2);
  }

  // ----- division by one limb -----

  /** A two-limb number divided by a limb above its high limb. */
  function QuotLimb(r: Limb, a: Limb, b: Limb): (q: Limb)
    requires r < b
  {
    QuotientFits(r, a, b);
    (r * BASE + a) / b
  }

  function RemLimb(r: Limb, a: Limb, b: Limb): (r': Limb)
    requires r < b
    ensures r' < b && QuotLimb(r, a, b) * b + r' == r * BASE + a
  {
    QuotientFits(r, a, b);
    (r * BASE + a) % b
  }

  /** mp_div1: divide by a limb; the remainder is returned. */
  method Div1(tabr: array<Limb>, taba: array<Limb>, n: nat, b: Limb, r0: Limb) returns (r: Limb)
    requires n <= tabr.Length && n <= taba.Length
    requires r0 < b
    modifies tabr
    ensures r < b
    ensures Val(tabr[..n]) * b + r == old(Val(taba[..n])) + r0 * Pow(BASE, n)
    ensures forall j :: n <= j < tabr.Length ==> tabr[j] == old(tabr[j])
  {
    hide Pow, Val, QuotLimb, RemLimb;
    ghost var orig := taba[..];
    r := r0;
    var i := n;
    ValEmpty(tabr[n..n]);
    ValEmpty(orig[n..n]);
    PowUnfold(BASE, 0);
    while i > 0
      invariant 0 <= i <= n
      invariant r < b
      invariant Val(tabr[i..n]) * b + r == Val(orig[i..n]) + r0 * Pow(BASE, n - i)
      invariant forall j :: 0 <= j < i ==> taba[j] == orig[j]
      invariant forall j :: n <= j < tabr.Length ==> tabr[j] == old(tabr[j])
    {
      i := i - 1;
      ghost var after, r1: int := tabr[i + 1..n], r;
      var a := taba[i];
      var q := QuotLimb(r, a, b);
      r := RemLimb(r, a, b);
      tabr[i] := q;
      assert tabr[..][i + 1..n] == after && tabr[..][i..n] == tabr[i..n];
      ValHead(tabr[..], i, n);
      ValHead(orig, i, n);
      ShrStep(Val(after), b, r1, Val(orig[i + 1..n]), r0, Pow(BASE, n - i - 1), q, a, r);
      PowUnfold(BASE, n - i - 1);
    }
    assert tabr[..n] == tabr[0..n] && orig[..n] == orig[0..n] == old(taba[..n]);
  }

  lemma QuotientFits(r: int, a: int, b: int)
    requires 0 <= r < b && 0 <= a < BASE
    ensures 0 <= (r * BASE + a) / b < BASE
    ensures (r * BASE + a) / b * b + (r * BASE + a) % b == r * BASE + a
    ensures 0 <= (r * BASE + a) % b < b
  {
    MulMono(r + 1, b, BASE, BASE);
    QuotientBelow(r * BASE + a, BASE, b);
  }

  /** udiv1norm_init: the reciprocal of a divisor whose top bit is set. */
  function ReciprocalOf(d: Limb): (v: Limb)
    requires d >= BASE / 2
    ensures (BASE + v) * d < BASE * BASE <= (BASE + v) * d + d
  {
    ReciprocalFits(d);
    ((BASE - d - 1) * BASE + (BASE - 1)) / d
  }

  lemma ReciprocalFits(d: int)
    requires BASE / 2 <= d < BASE
    ensures
      var v := ((BASE - d - 1) * BASE + (BASE - 1)) / d;
      0 <= v < BASE && (BASE + v) * d < BASE * BASE <= (BASE + v) * d + d
  {
    var n := (BASE - d - 1) * BASE + (BASE - 1);
    assert n == BASE * BASE - d * BASE - 1;
    var v, r := n / d, n % d;
    assert n == v * d + r;
    QuotientBelow(n, BASE, d);
    assert (BASE + v) * d == BASE * d + v * d;
  }

  /** The quotient estimate of udiv1norm, with the wrap-around of its operations written out. */
  function UdivEstimate(a1: Limb, a0: Limb, d: Limb, dInv: Limb): (q: Limb) {
    var n1m := if a0 >= BASE / 2 then BASE - 1 else 0;
    var nAdj := (a0 + And(n1m, d)) % BASE;
    var t := dInv * ((a1 - n1m) % BASE) + nAdj;
    (t / BASE + a1) % BASE
  }

  /** The correction step of udiv1norm: 128-bit subtraction, its high limb serving as a mask. */
  function UdivCorrect(a1: Limb, a0: Limb, d: Limb, q: Limb): (qr: (Limb, Limb)) {
    var a := (a1 * BASE + a0 - q * d - d) % (BASE * BASE);
    var ah := a / BASE;
    ((q + 1 + ah) % BASE, (a % BASE + And(ah, d)) % BASE)
  }

  /** udiv1norm: quotient and remainder of a two-limb number. */
  function UdivNorm(a1: Limb, a0: Limb, d: Limb, dInv: Limb): (qr: (Limb, Limb)) {
    UdivCorrect(a1, a0, d, UdivEstimate(a1, a0, d, dInv))
  }

  /** The reciprocal division is exact for every normalised divisor and every high limb below it. */
  lemma UdivNormExact(a1: Limb, a0: Limb, d: Limb)
    requires d >= BASE / 2 && a1 < d
    ensures
      var (q, r) := UdivNorm(a1, a0, d, ReciprocalOf(d));
      r < d && q * d + r == a1 * BASE + a0
  {
    hide UdivEstimate, UdivCorrect, ReciprocalOf;
    ReciprocalExact(a1, a0, d, ReciprocalOf(d));
    CorrectExact(a1, a0, d, UdivEstimate(a1, a0, d, ReciprocalOf(d)));
  }

  lemma ReciprocalExact(a1: Limb, a0: Limb, d: Limb, v: Limb)
    requires d >= BASE / 2 && a1 < d
    requires (BASE + v) * d < BASE * BASE <= (BASE + v) * d + d
    ensures 0 <= a1 * BASE + a0 - UdivEstimate(a1, a0, d, v) * d < 2 * d
  {
    hide UdivEstimate;
    var c := if a0 >= BASE / 2 then 1 else 0;
    var t := EstimateMasks(a1, a0, d, v, c);
    var s := t / BASE;
    EstimateBound(BASE, a1, a0, d, v, c, s, t % BASE);
    EstimateFits(BASE, a1, a0, d, s);
    assert UdivEstimate(a1, a0, d, v) == s + a1;
  }

  lemma EstimateMasks(a1: Limb, a0: Limb, d: Limb, v: Limb, c: int) returns (t: int)
    requires d >= BASE / 2 && a1 < d
    requires c == if a0 >= BASE / 2 then 1 else 0
    ensures t == v * (a1 + c) + (a0 + c * (d - BASE)) && t >= 0
    ensures UdivEstimate(a1, a0, d, v) == (t / BASE + a1) % BASE
  {
    hide And;
    Base64();
    AndMask(64, d);
    MaskedTerms(a1, a0, d, c);
    t := v * (a1 + c) + (a0 + c * (d - BASE));
    MulMono(0, v, 0, a1 + c);
  }

  /** The masked additions, without their wrap-around. */
  lemma MaskedTerms(a1: Limb, a0: Limb, d: Limb, c: int)
    requires d >= BASE / 2 && a1 < d && c == if a0 >= BASE / 2 then 1 else 0
    ensures
      var n1m := if a0 >= BASE / 2 then BASE - 1 else 0;
      && (a0 + And(n1m, d)) % BASE == a0 + c * (d - BASE) >= 0
      && (a1 - n1m) % BASE == a1 + c
  {
    hide And;
    Base64();
    AndMask(64, d);
    if c == 1 {
      DivModUnique(a0 + d, BASE, 1, a0 + d - BASE);
      DivModUnique(a1 - (BASE - 1), BASE, -1, a1 + 1);
    }
  }

  lemma CorrectExact(a1: Limb, a0: Limb, d: Limb, q0: Limb)
    requires d > 0
    requires 0 <= a1 * BASE + a0 - q0 * d < 2 * d && a1 < d
    ensures
      var (q, r) := UdivCorrect(a1, a0, d, q0);
      r < d && q * d + r == a1 * BASE + a0
  {
    hide And, UdivCorrect;
    var q0d := q0 * d;
    var n := a1 * BASE + a0;
    var rest := n - q0d - d;
    OneMoreTimes(q0, d, q0d);
    if rest >= 0 {
      EstimateFits(BASE, a1, a0, d, q0 + 1 - a1);
    }
    CorrectParts(a1, a0, d, q0, rest);
  }

  /** The masks of the correction, without their wrap-around: one more, or the term taken back. */
  lemma CorrectParts(a1: Limb, a0: Limb, d: Limb, q0: Limb, rest: int)
    requires rest == a1 * BASE + a0 - q0 * d - d && -(d as int) <= rest < d && (rest >= 0 ==> q0 + 1 < BASE)
    ensures UdivCorrect(a1, a0, d, q0) == if rest >= 0 then (q0 + 1, rest) else (q0, rest + d)
  {
    hide And;
    Base64();
    AndMask(64, d);
    var a := rest % (BASE * BASE);
    WrapRest(rest, a, d);
    WrapParts(rest, a, d, q0);
  }

  lemma WrapParts(rest: int, a: int, d: Limb, q0: Limb)
    requires -(d as int) <= rest < d && (rest >= 0 ==> q0 + 1 < BASE)
    requires rest >= 0 ==> a == rest && a / BASE == 0
    requires rest < 0 ==> a == rest + BASE * BASE && a / BASE == BASE - 1
    ensures rest >= 0 ==> (q0 + 1 + a / BASE) % BASE == q0 + 1 && (a % BASE) % BASE == rest
    ensures rest < 0 ==> (q0 + 1 + a / BASE) % BASE == q0 && (a % BASE + d) % BASE == rest + d
  {}

  /** The correction term as two limbs: itself, or its complement when it is negative. */
  lemma WrapRest(rest: int, a: int, d: Limb)
    requires a == rest % (BASE * BASE) && -(d as int) <= rest < d
    ensures rest >= 0 ==> a == rest && a / BASE == 0
    ensures rest < 0 ==> a == rest + BASE * BASE && a / BASE == BASE - 1
  {}

  /** The quotient estimate is right or one too small. */
  lemma EstimateBound(b: int, a1: int, a0: int, d: int, v: int, c: int, s: int, u: int)
    requires b > 0 && 2 * d >= b && d < b && 0 <= a1 < d && 0 <= a0 < b && 0 <= v
    requires c == 0 || c == 1
    requires c == 1 <==> 2 * a0 >= b
    requires (b + v) * d < b * b <= (b + v) * d + d
    requires v * (a1 + c) + (a0 + c * (d - b)) == s * b + u && 0 <= u < b
    ensures 0 <= a1 * b + a0 - (s + a1) * d < 2 * d
  {
    var e := b * b - (b + v) * d;
    var w := a0 + c * (d - b);
    var rest := a1 * b + a0 - (s + a1) * d;
    EstimateIdentity(b, a1, a0, d, v, c, s, u, e, w);
    var x, y, z := (a1 + c) * e, w * (b - d), u * d;
    assert 0 <= x <= d * d by { MulMono(a1 + c, d, e, d); MulMono(0, a1 + c, 0, e); }
    assert 0 <= y <= d * (b - d) by { WeightBound(b, a0, d, c, w); }
    assert 0 <= z <= b * d - d by { MulMono(u, b - 1, d, d); MulMono(0, u, 0, d); assert (b - 1) * d == b * d - d; }
    BoundSum(b, rest, d, x, y, z);
  }

  lemma BoundSum(b: int, rest: int, d: int, x: int, y: int, z: int)
    requires b > 0 && d > 0 && b * rest == x + y + z
    requires 0 <= x <= d * d && 0 <= y <= d * (b - d) && 0 <= z <= b * d - d
    ensures 0 <= rest < 2 * d
  {
    assert d * (b - d) == b * d - d * d;
    assert b * (2 * d) == 2 * (b * d);
    StripFactor(b, rest, 2 * d);
  }

  lemma StripFactor(b: int, x: int, y: int)
    requires b > 0 && 0 <= b * x < b * y
    ensures 0 <= x < y
  {}

  lemma WeightBound(b: int, a0: int, d: int, c: int, w: int)
    requires b > 0 && 2 * d >= b && d < b && 0 <= a0 < b
    requires c == 0 || c == 1
    requires c == 1 <==> 2 * a0 >= b
    requires w == a0 + c * (d - b)
    ensures 0 <= w * (b - d) <= d * (b - d)
  {
    MulMono(0, w, 0, b - d);
    MulMono(w, d, b - d, b - d);
  }

  lemma EstimateIdentity(b: int, a1: int, a0: int, d: int, v: int, c: int, s: int, u: int, e: int, w: int)
    requires c == 0 || c == 1
    requires e == b * b - (b + v) * d && w == a0 + c * (d - b)
    requires v * (a1 + c) + w == s * b + u
    ensures b * (a1 * b + a0 - (s + a1) * d) == (a1 + c) * e + w * (b - d) + u * d
  {
    var sb := v * (a1 + c) + w - u;
    assert s * b == sb;
    Expand(b, a1, a0, d, s, sb);
    if c == 0 {
      IdentityLow(b, a1, a0, d, v, u);
    } else {
      IdentityHigh(b, a1, a0, d, v, u);
    }
  }

  lemma Expand(b: int, a1: int, a0: int, d: int, s: int, sb: int)
    requires s * b == sb
    ensures b * (a1 * b + a0 - (s + a1) * d) == a1 * b * b + b * a0 - sb * d - a1 * b * d
  {
    assert b * (a1 * b + a0 - (s + a1) * d) == a1 * b * b + b * a0 - (s * b) * d - a1 * b * d;
  }

  lemma IdentityLow(b: int, a1: int, a0: int, d: int, v: int, u: int)
    ensures a1 * b * b + b * a0 - (v * a1 + a0 - u) * d - a1 * b * d
         == a1 * (b * b - (b + v) * d) + a0 * (b - d) + u * d
  {}

  lemma IdentityHigh(b: int, a1: int, a0: int, d: int, v: int, u: int)
    ensures a1 * b * b + b * a0 - (v * (a1 + 1) + (a0 + d - b) - u) * d - a1 * b * d
         == (a1 + 1) * (b * b - (b + v) * d) + (a0 + d - b) * (b - d) + u * d
  {}

  lemma EstimateFits(b: int, a1: int, a0: int, d: int, s: int)
    requires b > 0 && 0 <= a1 < d < b && 0 <= a0 < b && s + a1 >= 0
    requires 0 <= a1 * b + a0 - (s + a1) * d < 2 * d
    ensures 0 <= s + a1 < b
  {
    if s + a1 >= b {
      MulMono(b, s + a1, d, d);
      MulMono(a1 + 1, d, b, b);
    }
  }

  /**
    * mp_div1norm: divide in place by the limb `d`, given as `b`, its copy shifted left until the top bit is set,
    * and the reciprocal of `b`. The number is shifted along with the divisor and the remainder shifted back.
    */
  method Div1Norm(tab: array<Limb>, n: nat, b: Limb, r0: Limb, bInv: Limb, shift: nat, ghost d: nat)
    returns (r: Limb)
    requires n <= tab.Length
    requires shift < 64 && b == d * Pow(2, shift) && b >= BASE / 2 && bInv == ReciprocalOf(b)
    requires r0 < d
    modifies tab
    ensures r < d
    ensures Val(tab[..n]) * d + r == old(Val(tab[..n])) + r0 * Pow(BASE, n)
    ensures forall j :: n <= j < tab.Length ==> tab[j] == old(tab[j])
  {
    hide Val, Pow, ReciprocalOf, UdivNorm, Or;
    ghost var v0, p := Val(tab[..n]), Pow(2, shift);
    r := r0;
    PowUnfold(2, 0);
    SplitBase(shift);
    if shift != 0 {
      var l := Shl(tab, tab, n, shift, 0);
      OrDisjoint(r0, l, shift);
      ShiftedBelow(r0, l, d, p, b);
      r := Or(r * Pow(2, shift) % BASE, l);
    }
    assert r < b && Val(tab[..n]) + r * Pow(BASE, n) == (v0 + r0 * Pow(BASE, n)) * p by {
      if shift != 0 { ShiftBoth(Val(tab[..n]), r0, p, Pow(BASE, n), v0, r); }
    }
    ghost var r1: int, orig := r, tab[..];
    var i := n;
    ValEmpty(tab[n..n]);
    ValEmpty(orig[n..n]);
    PowUnfold(BASE, 0);
    while i > 0
      invariant 0 <= i <= n
      invariant r < b
      invariant Val(tab[i..n]) * b + r == Val(orig[i..n]) + r1 * Pow(BASE, n - i)
      invariant forall j :: 0 <= j < i ==> tab[j] == orig[j]
      invariant forall j :: n <= j < tab.Length ==> tab[j] == old(tab[j])
    {
      i := i - 1;
      ghost var after, rr: int := tab[i + 1..n], r;
      var a := tab[i];
      UdivNormExact(r, a, b);
      var (q, r') := UdivNorm(r, a, b, bInv);
      r := r';
      tab[i] := q;
      assert tab[..][i + 1..n] == after && tab[..][i..n] == tab[i..n];
      ValHead(tab[..], i, n);
      ValHead(orig, i, n);
      ShrStep(Val(after), b, rr, Val(orig[i + 1..n]), r1, Pow(BASE, n - i - 1), q, a, r);
      PowUnfold(BASE, n - i - 1);
    }
    assert tab[..n] == tab[0..n] && orig[..n] == orig[0..n];
    ShiftBack(Val(tab[..n]), d, p, b, r, v0 + r0 * Pow(BASE, n));
    r := r / Pow(2, shift);
  }

  lemma ShiftedBelow(r: int, l: int, d: int, p: int, b: int)
    requires 0 <= r < d && 0 <= l < p && b == d * p && b < BASE
    ensures r * p % BASE == r * p && 0 <= r * p + l < b
  {
    MulMono(r + 1, d, p, p);
    assert (r + 1) * p == r * p + p;
    MulMono(0, r, 0, p);
  }

  lemma ShiftBoth(x: int, r0: int, p: int, bn: int, v0: int, r: int)
    requires x + (r - r0 * p) * bn == v0 * p
    ensures x + r * bn == (v0 + r0 * bn) * p
  {
    assert (r - r0 * p) * bn == r * bn - (r0 * bn) * p;
  }

  lemma ShiftBack(q: int, d: int, p: int, b: int, r: int, v: int)
    requires p > 0 && b == d * p && 0 <= r < b && q * b + r == v * p
    ensures 0 <= r / p < d && q * d + r / p == v
  {
    var k := v - q * d;
    assert r == k * p + 0 by { assert q * b == (q * d) * p; }
    DivModUnique(r, p, k, 0);
    QuotientBelow(r, d, p);
  }
}
