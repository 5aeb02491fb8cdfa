/** The digit loops of js_atod in src/dtoa.c: leading zeros, then digits collected in a multi-limb number. */
module DigitReader {
  import opened Powers
  import opened Limbs
  import opened MpbModel
  import opened Tables
  import opened Scaling
  import opened FreeLoop
  import opened Estimates
  import opened Literal

  // ----- mpb_mul1_base -----

  /** A limb base as the tables store it: 0 stands for 2^64. */
  function FullBase(base: Limb): (b: nat)
    ensures b >= 1
  {
    if base == 0 then BASE else base
  }

  /** The limbs moved up one place, and a new lowest limb. */
  method PushLimb(tab: array<Limb>, n: nat, x: Limb)
    requires n + 2 <= tab.Length
    modifies tab
    ensures tab[..n + 1] == [x] + old(tab[..n])
  {
    var i := n + 1;
    while i > 0
      invariant 0 <= i <= n + 1
      invariant forall k :: 0 <= k < i ==> tab[k] == old(tab[k])
      invariant forall k :: i < k <= n + 1 ==> tab[k] == old(tab[k - 1])
    {
      i := i - 1;
      tab[i + 1] := tab[i];
    }
    tab[0] := x;
  }

  /** mpb_mul1_base: times a base, plus a limb. */
  method MulBase(a: Mpb, base: Limb, x: Limb)
    requires a.Valid() && a.Norm() && a.len + 2 <= a.tab.Length
    modifies a, a.tab
    ensures a.Valid() && a.Norm() && a.Value() == old(a.Value()) * FullBase(base) + x
  {
    hide Val, Pow;
    a.ZeroForm();
    if a.tab[0] == 0 && a.len == 1 {
      a.tab[0] := x;
      ValOne(x);
      assert a.tab[..1] == [x];
    } else {
      ghost var was := a.tab[..a.len];
      if base == 0 {
        PushLimb(a.tab, a.len, x);
        assert a.tab[..a.len + 1] == [x] + was;
        ValHead(a.tab[..a.len + 1], 0, a.len + 1);
        assert a.tab[..a.len + 1][1..a.len + 1] == was;
        assert a.tab[..a.len + 1][0..a.len + 1] == a.tab[..a.len + 1];
      } else {
        var top := Mul1(a.tab, a.tab, a.len, base, x);
        ghost var low := a.tab[..a.len];
        a.tab[a.len] := top;
        assert a.tab[..a.len + 1] == low + [top];
        ValAppend(low, top);
      }
      a.len := a.len + 1;
      a.Renorm();
    }
  }

  // ----- one digit -----

  /** The number and the pending limb hold the digits kept so far. */
  ghost predicate Holds(v: nat, cur: nat, count: nat, r: nat, kept: seq<nat>)
  {
    v * Pow(r, count) + cur == Num(kept, r) && cur < Pow(r, count)
  }

  lemma HoldsStart(v: nat, r: nat, kept: seq<nat>)
    requires v == Num(kept, r)
    ensures Holds(v, 0, 0, r, kept)
  {}

  lemma HoldsPush(v: nat, cur: nat, count: nat, r: nat, kept: seq<nat>, c: nat)
    requires Holds(v, cur, count, r, kept) && c < r
    ensures Holds(v, cur * r + c, count + 1, r, kept + [c])
  {
    hide Pow;
    NumAppend(kept, c, r);
    PowUnfold(r, count);
    DigitRoom(cur, Pow(r, count), c, r);
    ShiftIn(v, Pow(r, count), cur, r);
  }

  /** A full limb leaves room for the digits kept so far in few limbs. */
  lemma KeptRoom(a: Mpb, v: nat, cur: nat, count: nat, r: nat, kept: seq<nat>)
    requires IsRadix(r) && a.Valid() && a.Norm() && a.Value() == v && a.tab.Length == CAPACITY
    requires Holds(v, cur, count, r, kept) && AreDigits(kept, r) && |kept| <= AtodMaxDigits(r)
    ensures a.len + 2 <= a.tab.Length
  {
    hide Pow, Num, AtodMaxDigits, Mpb.Value;
    KeptDigits(r);
    NumBound(kept, r);
    PowMono(r, |kept|, AtodMaxDigits(r));
    PowPositive(r, count);
    MulMono(v, v, 1, Pow(r, count));
    PowBase(2);
    a.ZeroForm();
    PowUnfold(2, 0);
    if v > 0 { a.LenBound(0, 2); }
  }

  /** A digit within the kept digits: into the pending limb, which is flushed when full. */
  method PushDigit(tmp: Mpb, cur0: Limb, count0: nat, r: nat, c: nat, ghost kept: seq<nat>)
    returns (cur: Limb, count: nat)
    requires tmp.Valid() && tmp.Norm() && tmp.tab.Length == CAPACITY && IsRadix(r)
    requires c < r && AreDigits(kept, r) && |kept| < AtodMaxDigits(r) && count0 < DigitsPerLimb(r)
    requires Holds(tmp.Value(), cur0, count0, r, kept)
    modifies tmp, tmp.tab
    ensures tmp.Valid() && tmp.Norm() && count < DigitsPerLimb(r)
    ensures Holds(tmp.Value(), cur, count, r, kept + [c])
  {
    hide Pow, Num, Holds, DigitsPerLimb, RadixBase, AtodMaxDigits, Mpb.Value;
    HoldsPush(tmp.Value(), cur0, count0, r, kept, c);
    ghost var v := tmp.Value();
    CurFits(v, cur0 * r + c, count0 + 1, r, kept + [c]);
    cur := cur0 * r + c;
    count := count0 + 1;
    if count == DigitsPerLimb(r) {
      KeptRoom(tmp, v, cur, count, r, kept + [c]);
      MulBase(tmp, RadixBase(r), cur);
      Flush(v, cur, count, r, kept + [c], RadixBase(r));
      cur := 0;
      count := 0;
    }
  }

  lemma CurFits(v: nat, cur: nat, count: nat, r: nat, kept: seq<nat>)
    requires Holds(v, cur, count, r, kept) && IsRadix(r) && count <= DigitsPerLimb(r)
    ensures cur < BASE
    ensures count == DigitsPerLimb(r) ==> FullBase(RadixBase(r)) == Pow(r, count)
    ensures count < DigitsPerLimb(r) ==> Pow(r, count) < BASE
  {
    hide Pow, DigitsPerLimb, RadixBase;
    DigitsTable(r);
    PowMono(r, count, DigitsPerLimb(r));
    if count < DigitsPerLimb(r) {
      PowUnfold(r, count);
      PowPositive(r, count);
      PowMono(r, count + 1, DigitsPerLimb(r));
      MulMono(2, r, Pow(r, count), Pow(r, count));
    }
  }

  lemma Flush(v: nat, cur: nat, count: nat, r: nat, kept: seq<nat>, base: Limb)
    requires Holds(v, cur, count, r, kept) && FullBase(base) == Pow(r, count)
    ensures Holds(v * FullBase(base) + cur, 0, 0, r, kept)
  {
    hide Pow, Num;
    PowUnfold(r, 0);
  }

  /** The last, partial limb. */
  method FlushRest(tmp: Mpb, cur: Limb, count: nat, r: nat, ghost kept: seq<nat>)
    requires tmp.Valid() && tmp.Norm() && tmp.tab.Length == CAPACITY && IsRadix(r)
    requires AreDigits(kept, r) && |kept| <= AtodMaxDigits(r) && count < DigitsPerLimb(r)
    requires Holds(tmp.Value(), cur, count, r, kept)
    modifies tmp, tmp.tab
    ensures tmp.Valid() && tmp.Norm() && tmp.Value() == Num(kept, r)
  {
    hide Pow, Num, DigitsPerLimb, AtodMaxDigits, Mpb.Value;
    PowUnfold(r, 0);
    if count != 0 {
      ghost var v := tmp.Value();
      CurFits(v, cur, count, r, kept);
      KeptRoom(tmp, v, cur, count, r, kept);
      PowPositive(r, count);
      var base := PowUi(r, count);
      MulBase(tmp, base, cur);
    }
  }

  // ----- the scan -----

  /** The digits `done` and the point at `dot` have been read up to `p`; the rest of the scan is still to come. */
  ghost predicate Progress(s: string, p0: nat, start: nat, r: nat, intOnly: bool, done: seq<nat>, dot: int, p: nat)
    requires r <= 36
  {
    var whole, rest := Scan(s, p0, start, r, intOnly, false), Scan(s, p, start, r, intOnly, dot >= 0);
    && p0 <= p && -1 <= dot <= |done|
    && whole.digits == done + rest.digits && whole.end == rest.end
    && whole.dot == if dot >= 0 then dot else if rest.dot >= 0 then |done| + rest.dot else -1
  }

  lemma ProgressStart(s: string, p0: nat, start: nat, r: nat, intOnly: bool)
    requires r <= 36
    ensures Progress(s, p0, start, r, intOnly, [], -1, p0)
  {
    hide Scan;
    var whole := Scan(s, p0, start, r, intOnly, false);
    assert [] + whole.digits == whole.digits;
  }

  lemma ProgressDot(s: string, p0: nat, start: nat, r: nat, intOnly: bool, done: seq<nat>, dot: int, p: nat)
    requires r <= 36 && Progress(s, p0, start, r, intOnly, done, dot, p)
    requires dot < 0 && DotHere(s, p, start, r, intOnly)
    ensures Progress(s, p0, start, r, intOnly, done, |done|, p + 1)
  {}

  lemma ProgressDigit(s: string, p0: nat, start: nat, r: nat, intOnly: bool, done: seq<nat>, dot: int, p: nat)
    requires r <= 36 && Progress(s, p0, start, r, intOnly, done, dot, p)
    requires (dot < 0 ==> !DotHere(s, p, start, r, intOnly)) && ToDigit(At(s, p)) < r
    ensures Progress(s, p0, start, r, intOnly, done + [ToDigit(At(s, p))], dot, p + 1)
  {
    var c := ToDigit(At(s, p));
    var rest := Scan(s, p + 1, start, r, intOnly, dot >= 0);
    assert done + ([c] + rest.digits) == (done + [c]) + rest.digits;
  }

  lemma ProgressEnd(s: string, p0: nat, start: nat, r: nat, intOnly: bool, done: seq<nat>, dot: int, p: nat)
    requires r <= 36 && Progress(s, p0, start, r, intOnly, done, dot, p)
    requires (dot < 0 ==> !DotHere(s, p, start, r, intOnly)) && ToDigit(At(s, p)) >= r
    ensures Scan(s, p0, start, r, intOnly, false) == Body(done, dot, p)
  {
    assert done + [] == done;
  }

  /** The first loop: zeros, and the point among them. */
  method SkipZeros(s: string, p0: nat, start: nat, r: nat, intOnly: bool)
    returns (p: nat, pos: nat, dot: int, ghost zeros: seq<nat>)
    requires IsRadix(r)
    ensures |zeros| == pos && (forall i :: 0 <= i < pos ==> zeros[i] == 0)
    ensures Progress(s, p0, start, r, intOnly, zeros, dot, p)
    ensures
      var rest := Scan(s, p, start, r, intOnly, dot >= 0).digits;
      rest != [] ==> rest[0] != 0
  {
    hide Scan, DotHere, Progress;
    p, pos, dot, zeros := p0, 0, -1, [];
    ProgressStart(s, p0, start, r, intOnly);
    while true
      invariant |zeros| == pos && (forall i :: 0 <= i < pos ==> zeros[i] == 0)
      invariant Progress(s, p0, start, r, intOnly, zeros, dot, p)
      decreases |s| - p
    {
      if DotHere(s, p, start, r, intOnly) {
        DotIsNoDigit(s, p, start, r, intOnly);
        if dot >= 0 {
          NonZeroNext(s, p, start, r, intOnly, dot);
          break;
        }
        ProgressDot(s, p0, start, r, intOnly, zeros, dot, p);
        dot := pos;
        p := p + 1;
      }
      if At(s, p) != '0' {
        NonZeroNext(s, p, start, r, intOnly, dot);
        break;
      }
      ProgressDigit(s, p0, start, r, intOnly, zeros, dot, p);
      zeros := zeros + [0];
      p := p + 1;
      pos := pos + 1;
    }
  }

  lemma NonZeroNext(s: string, p: nat, start: nat, r: nat, intOnly: bool, dot: int)
    requires IsRadix(r) && At(s, p) != '0' && (dot < 0 ==> !DotHere(s, p, start, r, intOnly))
    ensures
      var rest := Scan(s, p, start, r, intOnly, dot >= 0).digits;
      rest != [] ==> rest[0] != 0
  {}

  /** The local variables of the second loop that collect digits. */
  datatype Collect = Collect(
    cur: Limb, count: nat, digits: nat, extra: nat, fastOk: bool, fastM: Limb, fastCount: nat)

  function Min(a: int, b: int): int { if a < b then a else b }

  /** What has been collected of the significant digits `sig`. */
  ghost predicate Collected(c: Collect, v: nat, r: nat, sig: seq<nat>)
    requires IsRadix(r)
  {
    && c.digits == Min(|sig|, AtodMaxDigits(r))
    && c.count < DigitsPerLimb(r)
    && (c.fastOk ==> r == 10 && c.fastCount == |sig| <= 16 && c.fastM == Num(sig, 10)
                     && c.extra == 0 && c.cur == 0 && c.count == 0)
    && (!c.fastOk ==> Holds(v, c.cur, c.count, r, sig[..c.digits]))
    && (c.extra == 0 <==> forall i :: c.digits <= i < |sig| ==> sig[i] == 0)
  }

  /** One digit of the second loop. */
  method CollectDigit(tmp: Mpb, was: Collect, r: nat, d: nat, ghost sig: seq<nat>) returns (now: Collect)
    requires tmp.Valid() && tmp.Norm() && tmp.tab.Length == CAPACITY && IsRadix(r) && d < r && AreDigits(sig, r)
    requires Collected(was, tmp.Value(), r, sig)
    modifies tmp, tmp.tab
    ensures tmp.Valid() && tmp.Norm() && Collected(now, tmp.Value(), r, sig + [d])
  {
    hide Pow, Num, Holds, DigitsPerLimb, AtodMaxDigits, Mpb.Value;
    KeptDigits(r);
    KeptTen();
    DigitsTable(r);
    var c := was;
    ghost var more := sig + [d];
    if c.fastOk {
      if c.fastCount < 16 {
        NumAppend(sig, d, 10);
        SixteenDigits(more);
        now := c.(fastM := c.fastM * 10 + d, fastCount := c.fastCount + 1,
                  digits := if c.digits < AtodMaxDigits(r) then c.digits + 1 else c.digits);
        return;
      }
      tmp.SetU64(c.fastM);
      c := c.(fastOk := false);
      assert sig[..c.digits] == sig;
      HoldsStart(tmp.Value(), r, sig);
    }
    if c.digits < AtodMaxDigits(r) {
      assert sig[..c.digits] == sig && more[..c.digits + 1] == more;
      var cur, count := PushDigit(tmp, c.cur, c.count, r, d, sig);
      now := c.(cur := cur, count := count, digits := c.digits + 1);
    } else {
      assert sig[..c.digits] == more[..c.digits];
      OrZero(c.extra, d);
      assert forall i :: 0 <= i < |sig| ==> more[i] == sig[i];
      assert more[|sig|] == d;
      now := c.(extra := Or(c.extra, d));
    }
  }

  lemma KeptTen()
    ensures AtodMaxDigits(10) == 38
  {}

  lemma SixteenDigits(ds: seq<nat>)
    requires AreDigits(ds, 10) && |ds| <= 16
    ensures Num(ds, 10) < 0x23_86F2_6FC1_0000
  {
    hide Num, Pow;
    NumBound(ds, 10);
    PowMono(10, |ds|, 16);
    SquareIsPow(10, 16);
    assert Square(10, 16) == 0x23_86F2_6FC1_0000;
  }

  /** The second loop: digits up to the end of the scan. */
  method ReadSignificant(tmp: Mpb, s: string, p0: nat, start: nat, r: nat, intOnly: bool,
                         p1: nat, pos1: nat, dot1: int, fast: bool, ghost zeros: seq<nat>)
    returns (p: nat, pos: nat, dot: int, c: Collect, ghost sig: seq<nat>)
    requires tmp.Valid() && tmp.tab.Length == CAPACITY && IsRadix(r)
    requires Progress(s, p0, start, r, intOnly, zeros, dot1, p1) && |zeros| == pos1
    modifies tmp, tmp.tab
    ensures tmp.Valid() && tmp.Norm() && AreDigits(sig, r) && pos == |zeros| + |sig|
    ensures Scan(s, p0, start, r, intOnly, false) == Body(zeros + sig, dot, p)
    ensures Collected(c, tmp.Value(), r, sig)
  {
    hide Scan, Num, Pow, DigitsPerLimb, AtodMaxDigits, Mpb.Value, Holds, DotHere, Progress, Collected;
    p, pos, dot, sig := p1, pos1, dot1, [];
    assert zeros + sig == zeros;
    tmp.SetU64(0);
    c := Collect(0, 0, 0, 0, r == 10 && fast, 0, 0);
    CollectNone(c, r);
    while true
      invariant tmp.Valid() && tmp.Norm() && AreDigits(sig, r) && pos == |zeros| + |sig|
      invariant Progress(s, p0, start, r, intOnly, zeros + sig, dot, p)
      invariant Collected(c, tmp.Value(), r, sig)
      decreases |s| - p
    {
      if DotHere(s, p, start, r, intOnly) {
        DotIsNoDigit(s, p, start, r, intOnly);
        if dot >= 0 {
          ProgressEnd(s, p0, start, r, intOnly, zeros + sig, dot, p);
          break;
        }
        ProgressDot(s, p0, start, r, intOnly, zeros + sig, dot, p);
        dot := pos;
        p := p + 1;
      }
      var d := ToDigit(At(s, p));
      if d >= r {
        ProgressEnd(s, p0, start, r, intOnly, zeros + sig, dot, p);
        break;
      }
      ProgressDigit(s, p0, start, r, intOnly, zeros + sig, dot, p);
      assert (zeros + sig) + [d] == zeros + (sig + [d]);
      p := p + 1;
      pos := pos + 1;
      c := CollectDigit(tmp, c, r, d, sig);
      sig := sig + [d];
    }
  }

  lemma DotIsNoDigit(s: string, p: nat, start: nat, r: nat, intOnly: bool)
    requires DotHere(s, p, start, r, intOnly)
    ensures ToDigit(At(s, p)) == 36 && p < |s|
  {}

  lemma CollectNone(c: Collect, r: nat)
    requires IsRadix(r) && c == Collect(0, 0, 0, 0, c.fastOk, 0, 0) && (c.fastOk ==> r == 10)
    ensures Collected(c, 0, r, [])
  {
    hide DigitsPerLimb, AtodMaxDigits;
    DigitsTable(r);
    KeptDigits(r);
  }

  // ----- all the digits -----

  /** The digits kept: after the leading zeros, at most as many as the table says. */
  function Kept(ds: seq<nat>, r: nat): (kept: seq<nat>)
    requires IsRadix(r)
  {
    var z := LeadingZeros(ds);
    ds[z..z + Min(|ds| - z, AtodMaxDigits(r))]
  }

  /**
    * Both loops and the last partial limb: the scanned digits, and the number of the kept ones.
    * `fast` is false in a build without the fast paths.
    */
  method ReadDigits(tmp: Mpb, s: string, p0: nat, start: nat, r: nat, intOnly: bool, fast: bool)
    returns (p: nat, pos: nat, sigPos: nat, dot: int, count: nat, extra: nat, fastOk: bool, fastM: Limb)
    requires tmp.Valid() && tmp.tab.Length == CAPACITY && IsRadix(r)
    modifies tmp, tmp.tab
    ensures tmp.Valid() && tmp.Norm()
    ensures
      var b := Scan(s, p0, start, r, intOnly, false);
      && p == b.end && pos == |b.digits| && sigPos == LeadingZeros(b.digits) && dot == b.dot
      && count == |Kept(b.digits, r)|
      && (extra == 0 <==> forall i :: sigPos + count <= i < pos ==> b.digits[i] == 0)
      && (fastOk ==> r == 10 && sigPos + count == pos && fastM == Num(Kept(b.digits, r), 10))
      && (!fastOk ==> tmp.Value() == Num(Kept(b.digits, r), r))
  {
    hide Scan, Num, Pow, DigitsPerLimb, AtodMaxDigits, Mpb.Value, Holds, DotHere, LeadingZeros, Kept;
    ghost var zeros, sig;
    p, pos, dot, zeros := SkipZeros(s, p0, start, r, intOnly);
    sigPos := pos;
    var c: Collect;
    ghost var b := Scan(s, p0, start, r, intOnly, false);
    ghost var rest := Scan(s, p, start, r, intOnly, dot >= 0).digits;
    assert b.digits == zeros + rest;
    p, pos, dot, c, sig := ReadSignificant(tmp, s, p0, start, r, intOnly, p, pos, dot, fast, zeros);
    SplitDigits(b.digits, zeros, rest, sig, r);
    KeptTen();
    count, extra, fastOk, fastM := c.digits, c.extra, c.fastOk, c.fastM;
    if !c.fastOk {
      FlushRest(tmp, c.cur, c.count, r, sig[..c.digits]);
    } else {
      assert sig[..c.digits] == sig;
    }
  }

  lemma SplitDigits(ds: seq<nat>, zeros: seq<nat>, rest: seq<nat>, sig: seq<nat>, r: nat)
    requires IsRadix(r) && ds == zeros + rest && ds == zeros + sig && (rest != [] ==> rest[0] != 0)
    requires forall i :: 0 <= i < |zeros| ==> zeros[i] == 0
    ensures LeadingZeros(ds) == |zeros| && Kept(ds, r) == sig[..Min(|sig|, AtodMaxDigits(r))]
    ensures forall i :: |zeros| <= i < |ds| ==> ds[i] == sig[i - |zeros|]
    ensures forall i :: 0 <= i < |sig| ==> ds[|zeros| + i] == sig[i]
  {
    hide LeadingZeros, AtodMaxDigits;
    KeptDigits(r);
    assert rest == sig by { assert ds[|zeros|..] == rest && ds[|zeros|..] == sig; }
    ZerosAre(ds, |zeros|);
    assert ds[|zeros|..] == sig;
  }

  lemma ZerosAre(ds: seq<nat>, z: nat)
    requires z <= |ds| && (forall i :: 0 <= i < z ==> ds[i] == 0) && (z < |ds| ==> ds[z] != 0)
    ensures LeadingZeros(ds) == z
  {}
}
