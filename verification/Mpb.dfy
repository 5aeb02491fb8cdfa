/** The bounded multi-limb number `mpb_t` of src/dtoa.c: a fixed limb buffer and a length in limbs. */
module MpbModel {
  import opened Powers
  import opened Rounding
  import opened Limbs

  /** The number of bits of a number, 0 for 0; for a limb, 64 less its count of leading zeros. */
  function BitLen(x: nat): (n: nat)
    ensures x < Pow(2, n) && (if x == 0 then n == 0 else n > 0 && Pow(2, n - 1) <= x)
  {
    if x == 0 then 0 else BitLen(x / 2) + 1
  }

  lemma BitLenPositive(x: nat)
    ensures BitLen(x) == 0 <==> x == 0
  {
    hide Pow;
  }

  lemma BitLenUnique(x: nat, n: nat)
    requires x < Pow(2, n) && (if n == 0 then x == 0 else Pow(2, n - 1) <= x)
    ensures BitLen(x) == n
  {
    hide BitLen, Pow;
    PowUnfold(2, 0);
    var k := BitLen(x);
    if k < n { PowMono(2, k, n - 1); }
    if n < k { PowMono(2, n, k - 1); }
  }

  // ----- limbs and bits of a limb sequence -----

  lemma {:induction false} PowBase(l: nat)
    ensures Pow(BASE, l) == Pow(2, 64 * l)
  {
    Base64();
    PowPow(2, 64, l);
  }

  lemma PowSplit(k: nat)
    ensures Pow(2, k) == Pow(BASE, k / 64) * Pow(2, k % 64)
  {
    PowBase(k / 64);
    PowAdd(2, 64 * (k / 64), k % 64);
  }

  /** Dropping low limbs divides; the dropped limbs are the remainder. */
  lemma DropLimbs(s: seq<Limb>, l: nat)
    requires l <= |s|
    ensures Pow(BASE, l) > 0
    ensures Val(s) / Pow(BASE, l) == Val(s[l..]) && Val(s) % Pow(BASE, l) == Val(s[..l])
  {
    hide Val, Pow;
    PowPositive(BASE, l);
    assert s == s[..l] + s[l..];
    ValConcat(s[..l], s[l..]);
    ValBound(s[..l]);
    DivModUnique(Val(s), Pow(BASE, l), Val(s[l..]), Val(s[..l]));
  }

  /** A bit of the number is a bit of one limb. */
  lemma BitOfLimb(s: seq<Limb>, k: nat)
    ensures Pow(2, k) > 0 && Pow(2, k % 64) > 0
    ensures Val(s) / Pow(2, k) % 2 == if k / 64 < |s| then s[k / 64] / Pow(2, k % 64) % 2 else 0
  {
    hide Val, Pow;
    PowPositive(2, k);
    PowPositive(2, k % 64);
    var l, j := k / 64, k % 64;
    PowSplit(k);
    if l >= |s| {
      ValBound(s);
      PowMono(BASE, |s|, l);
      PowPositive(BASE, l);
      MulMono(Pow(BASE, l), Pow(BASE, l), 1, Pow(2, j));
      DivModUnique(Val(s), Pow(2, k), 0, Val(s));
    } else {
      DropLimbs(s, l);
      DivTwice(Val(s), Pow(BASE, l), Pow(2, j));
      ValHead(s, l, |s|);
      assert s[l..|s|] == s[l..];
      HighPart(s[l], Val(s[l + 1..|s|]), j);
    }
  }

  /** Limbs above do not change the bits of a limb. */
  lemma HighPart(x: Limb, y: nat, j: nat)
    requires j < 64
    ensures Pow(2, j) > 0
    ensures (x + BASE * y) / Pow(2, j) % 2 == x / Pow(2, j) % 2
    ensures (x + BASE * y) % Pow(2, j) == x % Pow(2, j)
  {
    hide Pow;
    SplitBase(j);
    var p, p2 := Pow(2, j), Pow(2, 64 - j - 1);
    PowUnfold(2, 64 - j - 1);
    var q, r := x / p, x % p;
    var h := p2 * y;
    HighLimbs(p, p2, y, h);
    EvenAbove(x, BASE * y, p, q, r, h);
  }

  lemma HighLimbs(p: int, p2: int, y: int, h: int)
    requires BASE == p * (2 * p2) && h == p2 * y
    ensures BASE * y == (2 * h) * p
  {
    assert BASE * y == (p * (2 * p2)) * y;
    MulAssoc(p, 2 * p2, y);
    MulAssoc(2, p2, y);
  }

  lemma EvenAbove(x: nat, z: nat, p: nat, q: nat, r: nat, h: nat)
    requires p > 0 && q == x / p && r == x % p && z == (2 * h) * p
    ensures (x + z) / p % 2 == q % 2 && (x + z) % p == r
  {
    assert x == q * p + r;
    assert (q + 2 * h) * p == q * p + (2 * h) * p;
    DivModUnique(x + z, p, q + 2 * h, r);
  }

  /** The low bits of the number are its low limbs and the low bits of the next limb. */
  lemma LowOfLimb(s: seq<Limb>, k: nat)
    ensures Pow(2, k) > 0 && Pow(2, k % 64) > 0
    ensures k / 64 < |s| ==>
      (Val(s) % Pow(2, k) == 0 <==> Val(s[..k / 64]) == 0 && s[k / 64] % Pow(2, k % 64) == 0)
    ensures k / 64 >= |s| ==> Val(s) % Pow(2, k) == Val(s)
  {
    hide Val, Pow;
    PowPositive(2, k);
    PowPositive(2, k % 64);
    var l, j := k / 64, k % 64;
    PowSplit(k);
    PowPositive(BASE, l);
    if l >= |s| {
      ValBound(s);
      PowMono(BASE, |s|, l);
      MulMono(Pow(BASE, l), Pow(BASE, l), 1, Pow(2, j));
      DivModUnique(Val(s), Pow(2, k), 0, Val(s));
    } else {
      DropLimbs(s, l);
      DivTwice(Val(s), Pow(BASE, l), Pow(2, j));
      ValHead(s, l, |s|);
      assert s[l..|s|] == s[l..];
      HighPart(s[l], Val(s[l + 1..|s|]), j);
      SumZero(s[l] % Pow(2, j), Pow(BASE, l), Val(s[..l]));
    }
  }

  lemma SumZero(x: int, b: int, y: int)
    requires 0 <= x && 0 < b && 0 <= y
    ensures x * b + y == 0 <==> x == 0 && y == 0
  {
    MulMono(0, x, 0, b);
    if x > 0 { MulMono(1, x, 1, b); }
  }

  /** The half bit and the bits below it decide a rounding. */
  lemma HalfBits(mode: Mode, v: nat, h: nat)
    requires h > 0
    ensures v / (2 * h) == v / h / 2
    ensures RoundQuot(mode, v, 2 * h)
         == v / (2 * h) + if !mode.TowardZero? && v / h % 2 == 1
                             && (mode.NearestAway? || v % h != 0 || v / (2 * h) % 2 == 1) then 1 else 0
  {
    DivTwice(v, h, 2);
    assert h * 2 == 2 * h;
    var b := v / h % 2;
    assert v % (2 * h) == b * h + v % h;
    assert b == 0 || b == 1;
  }

  /** A number shifted right by `shift` bits, rounded; a negative shift is to the left. */
  function RoundShift(mode: Mode, v: nat, shift: int): (n: nat) {
    if shift <= 0 then v * Pow(2, -shift)
    else
      PowPositive(2, shift);
      RoundQuot(mode, v, Pow(2, shift))
  }

  /** Move the first `n` limbs up by `l` places and clear the places below them. */
  method SlideUp(tab: array<Limb>, n: nat, l: nat)
    requires n + l <= tab.Length
    modifies tab
    ensures forall k :: 0 <= k < l ==> tab[k] == 0
    ensures forall k :: l <= k < n + l ==> tab[k] == old(tab[k - l])
  {
    var i := n;
    while i > 0
      invariant 0 <= i <= n
      invariant forall k :: 0 <= k < i ==> tab[k] == old(tab[k])
      invariant forall k :: i + l <= k < n + l ==> tab[k] == old(tab[k - l])
    {
      i := i - 1;
      tab[i + l] := tab[i];
    }
    while i < l
      invariant 0 <= i <= l
      invariant forall k :: 0 <= k < i ==> tab[k] == 0
      invariant forall k :: l <= k < n + l ==> tab[k] == old(tab[k - l])
    {
      tab[i] := 0;
      i := i + 1;
    }
  }

  class Mpb {
    const tab: array<Limb>
    var len: nat

    ghost predicate Valid()
      reads this
    {
      1 <= len <= tab.Length
    }

    /** The number held. */
    ghost function Value(): nat
      reads this, tab
      requires Valid()
    {
      Val(tab[..len])
    }

    /** No leading zero limb. */
    ghost predicate Norm()
      reads this, tab
      requires Valid()
    {
      len == 1 || tab[len - 1] != 0
    }

    constructor (capacity: nat)
      requires capacity >= 1
      ensures Valid() && fresh(tab) && tab.Length == capacity && Value() == 0 && Norm()
    {
      tab := new Limb[capacity];
      len := 1;
      new;
      tab[0] := 0;
      ValOne(0);
      assert tab[..1] == [0];
    }

    lemma ZeroLength()
      requires Valid() && Norm() && Value() == 0
      ensures len == 1
    {
      hide Val, Pow;
      if len > 1 {
        ValTop(tab[..len]);
        PowPositive(BASE, len - 1);
      }
    }

    /** A number that stays small when shifted left leaves room for the shifted limbs. */
    lemma LenBound(shift: nat, room: nat)
      requires Valid() && Norm() && Value() > 0 && Value() * Pow(2, shift) < Pow(BASE, room)
      ensures len + (shift + 63) / 64 <= room + 1
    {
      hide Val, Pow;
      PowUnfold(BASE, 0);
      if len > 1 {
        ValTop(tab[..len]);
      }
      {
        var q := shift / 64;
        PowSplit(shift);
        PowPositive(2, shift % 64);
        PowPositive(BASE, q);
        MulMono(Pow(BASE, q), Pow(BASE, q), 1, Pow(2, shift % 64));
        MulMono(Pow(BASE, len - 1), Value(), Pow(BASE, q), Pow(2, shift));
        PowAdd(BASE, len - 1, q);
        if len - 1 + q >= room { PowMono(BASE, room, len - 1 + q); }
      }
    }

    lemma ZeroForm()
      requires Valid() && Norm()
      ensures Value() == 0 <==> tab[0] == 0 && len == 1
    {
      hide Val, Pow;
      if len == 1 {
        ValOne(tab[0]);
        assert tab[..1] == [tab[0]];
      } else {
        ValTop(tab[..len]);
        PowPositive(BASE, len - 1);
      }
    }

    /** A number of fewer bits than a limb has one limb. */
    lemma ShortForm(bits: int)
      requires Valid() && Norm() && bits <= 64
      ensures BitLen(Value()) < bits ==> len == 1
    {
      hide Val, Pow, BitLen;
      TopBit(tab[..len]);
      if len > 1 { BitLenPositive(tab[len - 1]); }
    }

    /** mpb_renorm. */
    method Renorm()
      requires Valid()
      modifies `len
      ensures Valid() && Norm() && len <= old(len) && Value() == old(Value())
    {
      hide Val;
      while len > 1 && tab[len - 1] == 0
        invariant Valid() && len <= old(len) && Value() == old(Value())
        decreases len
      {
        ValLast(tab[..], len - 1);
        assert tab[..][..len] == tab[..len] && tab[..][..len - 1] == tab[..len - 1];
        len := len - 1;
      }
    }

    /** mpb_set_u64. */
    method SetU64(m: Limb)
      requires Valid()
      modifies this, tab
      ensures Valid() && Norm() && Value() == m && len == 1
    {
      tab[0] := m;
      len := 1;
      ValOne(m);
      assert tab[..1] == [m];
    }

    /** mpb_get_u64. */
    method GetU64() returns (m: Limb)
      requires Valid()
      ensures m == Value() % BASE
    {
      m := tab[0];
      ValHead(tab[..len], 0, len);
      assert tab[..len][0..len] == tab[..len];
    }

    /** mpb_get_bit: one bit of the number; bits above it are 0. */
    method GetBit(k: nat) returns (bit: nat)
      requires Valid()
      ensures Pow(2, k) > 0 && bit == Value() / Pow(2, k) % 2
    {
      hide Val, Pow;
      BitOfLimb(tab[..len], k);
      var l := k / 64;
      if l >= len {
        bit := 0;
      } else {
        bit := tab[l] / Pow(2, k % 64) % 2;
      }
    }

    /** mpb_floor_log2: the position of the top bit, -1 for zero. */
    method FloorLog2() returns (e: int)
      requires Valid() && Norm()
      ensures e == BitLen(Value()) - 1
    {
      hide Val, Pow, BitLen;
      var v := tab[len - 1];
      ValLast(tab[..], len - 1);
      assert tab[..][..len] == tab[..len];
      TopBit(tab[..len]);
      if v == 0 {
        e := -1;
      } else {
        e := len * 64 - 1 - (64 - BitLen(v));
      }
    }

    /** The part of mpb_shr_round that decides whether dropping `shift` bits rounds up. */
    method RoundsUp(shift: nat, mode: Mode) returns (addOne: Limb)
      requires Valid() && shift >= 1
      ensures Pow(2, shift) > 0 && addOne <= 1
      ensures RoundQuot(mode, Value(), Pow(2, shift)) == Value() / Pow(2, shift) + addOne
    {
      hide Val, Pow, Or, RoundQuot, Value;
      ghost var h := Pow(2, shift - 1);
      PowPositive(2, shift - 1);
      PowPositive(2, shift);
      PowUnfold(2, shift - 1);
      HalfBits(mode, Value(), h);
      addOne := 0;
      if !mode.TowardZero? {
        var bit1 := GetBit(shift - 1);
        if bit1 != 0 {
          var bit2 := mode.NearestAway?;
          if mode.NearestEven? {
            bit2 := AnyLowBit(shift - 1);
          }
          if bit2 {
            addOne := 1;
          } else {
            addOne := GetBit(shift);
          }
        }
      }
    }

    /** The loop of mpb_shr_round that ors together the bits below bit `k`. */
    method AnyLowBit(k: nat) returns (any: bool)
      requires Valid()
      ensures Pow(2, k) > 0 && (any <==> Value() % Pow(2, k) != 0)
    {
      hide Val, Pow, Or;
      LowOfLimb(tab[..len], k);
      var bit2: Limb := 0;
      var l, j := k / 64, k % 64;
      var i := 0;
      ValEmpty(tab[..0]);
      while i < l && i < len
        invariant 0 <= i <= l && i <= len
        invariant bit2 == 0 <==> Val(tab[..i]) == 0
      {
        ValLast(tab[..], i);
        assert tab[..][..i + 1] == tab[..i + 1] && tab[..][..i] == tab[..i];
        PowPositive(BASE, i);
        SumZero(tab[i], Pow(BASE, i), Val(tab[..i]));
        OrZero(bit2, tab[i]);
        Base64();
        OrBound(bit2, tab[i], 64);
        bit2 := Or(bit2, tab[i]);
        i := i + 1;
      }
      if l < len {
        assert tab[..len][..l] == tab[..l];
        OrZero(bit2, tab[l] % Pow(2, j));
        any := Or(bit2, tab[l] % Pow(2, j)) != 0;
      } else {
        any := bit2 != 0;
      }
    }

    /** mpb_shr_round: scale by a power of two; a right shift rounds in the given mode. */
    method ShrRound(shift: int, mode: Mode)
      requires Valid()
      requires shift < 0 ==> len + (-shift + 63) / 64 <= tab.Length
      modifies this, tab
      ensures Valid()
      ensures Value() == RoundShift(mode, old(Value()), shift)
      ensures old(Norm()) && (shift >= 0 || old(Value()) > 0) ==> Norm()
    {
      PowUnfold(2, 0);
      if shift < 0 {
        ShlBits(-shift);
      } else if shift > 0 {
        var addOne := RoundsUp(shift, mode);
        ShrBits(shift, addOne);
      }
    }

    /** The left shift of mpb_shr_round: bits first, then whole limbs. */
    method ShlBits(shift: nat)
      requires Valid() && len + (shift + 63) / 64 <= tab.Length
      modifies this, tab
      ensures Valid() && Value() == old(Value()) * Pow(2, shift)
      ensures old(Norm()) && old(Value()) > 0 ==> Norm()
    {
      hide Val, Pow, Value;
      var l, j := shift / 64, shift % 64;
      ghost var v0 := Value();
      PowSplit(shift);
      PowUnfold(2, 0);
      PowUnfold(BASE, 0);
      if j != 0 {
        ShlInLimb(j);
      }
      assert Value() == v0 * Pow(2, j);
      MulAssoc(v0, Pow(2, j), Pow(BASE, l));
      if l > 0 {
        PowPositive(2, j);
        if v0 > 0 { MulMono(1, v0, 1, Pow(2, j)); }
        MoveUp(l);
      }
    }

    method ShlInLimb(j: nat)
      requires Valid() && len < tab.Length && 1 <= j < 64
      modifies this, tab
      ensures Valid() && Norm() && len <= old(len) + 1 && Value() == old(Value()) * Pow(2, j)
    {
      hide Val, Pow;
      PowPositive(2, j);
      var h := Shl(tab, tab, len, j, 0);
      tab[len] := h;
      ValLast(tab[..], len);
      assert tab[..][..len + 1] == tab[..len + 1] && tab[..][..len] == tab[..len];
      len := len + 1;
      Renorm();
    }

    method MoveUp(l: nat)
      requires Valid() && len + l <= tab.Length
      modifies this, tab
      ensures Valid() && Value() == Pow(BASE, l) * old(Value())
      ensures old(Norm()) && old(Value()) > 0 ==> Norm()
    {
      hide Val, Pow;
      ghost var s := tab[..len];
      SlideUp(tab, len, l);
      len := len + l;
      MovedUp(s, tab[..len], l);
    }

    /** The right shift of mpb_shr_round: whole limbs, then bits, then the rounding increment. */
    method ShrBits(shift: nat, addOne: Limb)
      requires Valid() && shift >= 1 && addOne <= 1
      modifies this, tab
      ensures Valid() && Pow(2, shift) > 0 && Value() == old(Value()) / Pow(2, shift) + addOne
      ensures old(Norm()) ==> Norm()
    {
      hide Val, Pow;
      var l, j := shift / 64, shift % 64;
      ghost var v0, cap := Value(), len;
      PowSplit(shift);
      PowPositive(2, shift);
      PowPositive(2, j);
      PowPositive(BASE, l);
      ValBound(tab[..len]);
      if l >= len {
        PowMono(BASE, len, l);
        MulMono(Pow(BASE, l), Pow(BASE, l), 1, Pow(2, j));
        DivModUnique(v0, Pow(2, shift), 0, v0);
        SetU64(addOne);
      } else {
        if l > 0 {
          MoveDown(l);
        }
        DivTwice(v0, Pow(BASE, l), Pow(2, j));
        PowUnfold(2, 0);
        PowUnfold(BASE, 0);
        if j != 0 {
          ShrInLimb(j);
        }
        if addOne != 0 {
          Increment(cap, v0, shift);
        }
      }
    }

    method MoveDown(l: nat)
      requires Valid() && l < len
      modifies this, tab
      ensures Valid() && Pow(BASE, l) > 0 && Value() == old(Value()) / Pow(BASE, l)
      ensures old(Norm()) ==> Norm()
    {
      hide Val, Pow;
      ghost var s := tab[..len];
      DropLimbs(s, l);
      len := len - l;
      var i := 0;
      while i < len
        invariant 0 <= i <= len == |s| - l
        invariant forall k :: 0 <= k < i ==> tab[k] == s[k + l]
        invariant forall k :: i <= k < |s| ==> tab[k] == s[k]
      {
        tab[i] := tab[i + l];
        i := i + 1;
      }
      assert tab[..len] == s[l..];
    }

    method ShrInLimb(j: nat)
      requires Valid() && 1 <= j < 64
      modifies this, tab
      ensures Valid() && Norm() && Pow(2, j) > 0 && Value() == old(Value()) / Pow(2, j)
    {
      hide Val, Pow;
      PowPositive(2, j);
      ghost var v := Value();
      var rem := Shr(tab, tab, len, j, 0);
      DivModUnique(v, Pow(2, j), Val(tab[..len]), rem);
      Renorm();
    }

    /** Adding one, with a new top limb when the carry leaves the number. */
    method Increment(ghost cap: nat, ghost v0: nat, ghost shift: nat)
      requires Valid() && cap <= tab.Length && shift >= 1
      requires v0 < Pow(BASE, cap) && Pow(2, shift) > 0 && Value() == v0 / Pow(2, shift)
      modifies this, tab
      ensures Valid() && Value() == old(Value()) + 1
      ensures old(Norm()) ==> Norm()
    {
      hide Val, Pow;
      var a := AddUi(tab, 1, len);
      ghost var top := Pow(BASE, len);
      ValBound(tab[..len]);
      if a != 0 {
        MulMono(1, a, top, top);
        CarryFits(old(Value()), v0, shift, cap, len);
        tab[len] := a;
        ValLast(tab[..], len);
        assert tab[..][..len + 1] == tab[..len + 1] && tab[..][..len] == tab[..len];
        len := len + 1;
      } else if old(Norm()) {
        NormKept(old(tab[..len]), tab[..len]);
      }
    }
  }

  /** A carry out of a number that was shifted right finds room below the length it had before. */
  lemma CarryFits(v: nat, v0: nat, shift: nat, cap: nat, len: nat)
    requires shift >= 1 && len >= 1 && Pow(2, shift) > 0
    requires v == v0 / Pow(2, shift) && v0 < Pow(BASE, cap) && v + 1 >= Pow(BASE, len)
    ensures len < cap
  {
    hide Pow;
    PowMono(2, 1, shift);
    PowUnfold(2, 0);
    HalfBelow(v0, Pow(2, shift), Pow(BASE, cap));
    PowPositive(BASE, len - 1);
    PowUnfold(BASE, len - 1);
    MulMono(2, BASE, 1, Pow(BASE, len - 1));
    if len >= cap { PowMono(BASE, cap, len); }
  }

  lemma HalfBelow(v: nat, p: nat, top: nat)
    requires p >= 2 && v < top
    ensures 2 * (v / p) < top
  {
    var q := v / p;
    assert v >= q * p;
    MulMono(2, p, q, q);
  }

  /** A number that did not shrink keeps a non-zero top limb. */
  lemma NormKept(s: seq<Limb>, t: seq<Limb>)
    requires |s| == |t| > 0 && Val(t) >= Val(s)
    requires |s| == 1 || s[|s| - 1] != 0
    ensures |t| == 1 || t[|t| - 1] != 0
  {
    hide Val, Pow;
    var n := |t| - 1;
    if n > 0 && t[n] == 0 {
      ValTop(s);
      ValLast(t, n);
      assert t[..n + 1] == t;
      ValBound(t[..n]);
    }
  }

  lemma MovedUp(s: seq<Limb>, t: seq<Limb>, l: nat)
    requires |s| >= 1 && |t| == |s| + l
    requires forall k :: 0 <= k < l ==> t[k] == 0
    requires forall k :: l <= k < |t| ==> t[k] == s[k - l]
    ensures Val(t) == Pow(BASE, l) * Val(s)
    ensures |s| == 1 && Val(s) > 0 ==> t[|t| - 1] != 0
  {
    var z := t[..l];
    assert t == z + s;
    ValConcat(z, s);
    ValZeros(z);
    if |s| == 1 {
      ValOne(s[0]);
      assert s == [s[0]];
    }
  }

  lemma {:induction false} ValZeros(z: seq<Limb>)
    requires forall k :: 0 <= k < |z| ==> z[k] == 0
    ensures Val(z) == 0
    decreases |z|
  {
    if z != [] { ValZeros(z[1..]); }
  }

  /** The bit length of a number without leading zero limbs comes from its top limb. */
  lemma TopBit(s: seq<Limb>)
    requires |s| > 0 && (|s| == 1 || s[|s| - 1] != 0)
    ensures BitLen(Val(s)) == if s[|s| - 1] == 0 then 0 else (|s| - 1) * 64 + BitLen(s[|s| - 1])
  {
    hide BitLen, Val, Pow;
    var n := |s| - 1;
    var x: int := s[n];
    PowUnfold(2, 0);
    ValLast(s, n);
    assert s[..n + 1] == s;
    if x == 0 {
      ValEmpty(s[..0]);
      BitLenUnique(0, 0);
    } else {
      ValBound(s[..n]);
      PowBase(n);
      var k := BitLen(x);
      PowAdd(2, n * 64, k);
      PowAdd(2, n * 64, k - 1);
      TopRange(x, Pow(BASE, n), Val(s[..n]), Pow(2, k - 1), Pow(2, k));
      BitLenUnique(Val(s), n * 64 + k);
    }
  }

  lemma TopRange(x: int, b: int, low: int, p: int, q: int)
    requires 0 <= p <= x < q && 0 <= low < b
    ensures b * p <= low + b * x < b * q
  {
    MulMono(p, x, b, b);
    MulMono(x + 1, q, b, b);
    assert (x + 1) * b == x * b + b;
  }
}
