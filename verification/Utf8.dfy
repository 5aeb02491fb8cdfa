/** The six-byte UTF-8 of src/cutils.c (section 2 of RFC 2279): unicode_to_utf8 and unicode_from_utf8. */
module Utf8 {
  import opened Wire
  import opened Powers
  import opened Limbs

  /** The first value that does not fit. */
  const LIMIT: nat := 0x8000_0000

  /** The number of continuation bytes of a value. */
  function Extra(c: nat): (l: nat)
    ensures l <= 5
  {
    if c < 0x80 then 0 else if c < 0x800 then 1 else if c < 0x10000 then 2
    else if c < 0x200000 then 3 else if c < 0x4000000 then 4 else 5
  }

  /** The marker bits of a first byte with `l` continuation bytes. */
  function Lead(l: nat): (b: nat) {
    match l case 0 => 0 case 1 => 0xC0 case 2 => 0xE0 case 3 => 0xF0 case 4 => 0xF8 case _ => 0xFC
  }

  /** The values a first byte can carry. */
  function LeadRoom(l: nat): (n: nat)
    ensures n > 0
  {
    match l case 0 => 0x80 case 1 => 0x20 case 2 => 0x10 case 3 => 8 case 4 => 4 case _ => 2
  }

  /** utf8_min_code: the least value that needs `l` continuation bytes. */
  function MinCode(l: nat): (n: nat) {
    match l case 0 => 0 case 1 => 0x80 case 2 => 0x800 case 3 => 0x10000 case 4 => 0x200000 case _ => 0x4000000
  }

  /** `l` continuation bytes for the low bits of a value. */
  function Continuation(c: nat, l: nat): (bs: seq<Byte>)
    ensures |bs| == l
  {
    if l == 0 then [] else Continuation(c / 64, l - 1) + [0x80 + c % 64]
  }

  /** What is left of a value above `l` continuation bytes. */
  function High(c: nat, l: nat): (h: nat) {
    if l == 0 then c else High(c / 64, l - 1)
  }

  lemma {:induction false} HighIs(c: nat, l: nat)
    ensures Pow(64, l) > 0 && High(c, l) == c / Pow(64, l)
    decreases l
  {
    hide Pow;
    PowUnfold(64, 0);
    PowPositive(64, l);
    if l > 0 {
      HighIs(c / 64, l - 1);
      PowUnfold(64, l - 1);
      Rounding.DivTwice(c, 64, Pow(64, l - 1));
    }
  }
  /** The encoding of a value below 2^31. */
  function Encode(c: nat): (bs: seq<Byte>)
    requires c < LIMIT
    ensures |bs| == Extra(c) + 1
  {
    var l := Extra(c);
    LeadFits(c);
    [Lead(l) + High(c, l)] + Continuation(c, l)
  }

  lemma SixtyFour()
    ensures Pow(64, 0) == 1 && Pow(64, 1) == 64 && Pow(64, 2) == 4096 && Pow(64, 3) == 262144
    ensures Pow(64, 4) == 16777216 && Pow(64, 5) == 1073741824
  {
    PowUnfold(64, 4);
    PowUnfold(64, 3);
    PowUnfold(64, 2);
    PowUnfold(64, 1);
  }

  lemma LeadFits(c: nat)
    requires c < LIMIT
    ensures High(c, Extra(c)) < LeadRoom(Extra(c)) && Lead(Extra(c)) + LeadRoom(Extra(c)) <= 256
  {
    hide Pow, High;
    var l := Extra(c);
    HighIs(c, l);
    SixtyFour();
  }

  // ----- decoding -----

  /** The number of continuation bytes a first byte announces, or -1. */
  function Announced(b: Byte): (l: int)
    ensures -1 <= l <= 5
  {
    if b < 0x80 then 0 else if b < 0xC0 then -1 else if b < 0xE0 then 1 else if b < 0xF0 then 2
    else if b < 0xF8 then 3 else if b < 0xFC then 4 else if b < 0xFE then 5 else -1
  }

  predicate IsContinuation(b: Byte) {
    0x80 <= b < 0xC0
  }

  /** Six more bits from each byte. */
  function Fold(c: nat, bs: seq<Byte>): (n: nat) {
    if bs == [] then c else Fold(c, bs[..|bs| - 1]) * 64 + bs[|bs| - 1] % 64
  }

  datatype Decoded = Bad | Value(c: nat, used: nat)

  /** What the decoder makes of the first bytes of `s`, of which it may use `maxLen`. */
  function Decode(s: seq<Byte>, maxLen: int): (d: Decoded)
    requires |s| >= 1 && maxLen <= |s|
    ensures d.Value? ==> 1 <= d.used <= |s|
  {
    var l := Announced(s[0]);
    if l == 0 then Value(s[0], 1)
    else if l < 0 || l > maxLen - 1 then Bad
    else
      var c := Fold(s[0] % LeadRoom(l), s[1..1 + l]);
      if (exists i :: 1 <= i <= l && !IsContinuation(s[i])) || c < MinCode(l) then Bad else Value(c, l + 1)
  }

  lemma {:induction false} FoldBack(c: nat, l: nat)
    ensures Fold(High(c, l), Continuation(c, l)) == c
    decreases l
  {
    if l > 0 {
      FoldBack(c / 64, l - 1);
      var bs := Continuation(c, l);
      assert bs[..l - 1] == Continuation(c / 64, l - 1);
    }
  }

  lemma {:induction false} FoldParts(h: nat, bs: seq<Byte>)
    requires forall i :: 0 <= i < |bs| ==> IsContinuation(bs[i])
    ensures High(Fold(h, bs), |bs|) == h && Continuation(Fold(h, bs), |bs|) == bs
    decreases |bs|
  {
    if bs != [] {
      var k := |bs| - 1;
      FoldParts(h, bs[..k]);
      var c := Fold(h, bs);
      assert c / 64 == Fold(h, bs[..k]) && c % 64 == bs[k] % 64;
      assert bs == bs[..k] + [bs[k]];
    }
  }

  lemma {:induction false} AllContinuation(c: nat, l: nat)
    ensures forall i :: 0 <= i < l ==> IsContinuation(Continuation(c, l)[i])
    decreases l
  {
    if l > 0 { AllContinuation(c / 64, l - 1); }
  }

  lemma AnnouncedLead(l: nat, h: nat)
    requires l <= 5 && h < LeadRoom(l)
    ensures 0 <= Lead(l) + h < 256 && Announced(Lead(l) + h) == l && (l > 0 ==> (Lead(l) + h) % LeadRoom(l) == h)
  {}

  lemma LeadOf(b: Byte)
    requires Announced(b) >= 0
    ensures
      var l := Announced(b);
      b % LeadRoom(l) < LeadRoom(l) && (l > 0 ==> b == Lead(l) + b % LeadRoom(l)) && (l == 0 ==> b < 0x80)
  {}

  lemma ExtraRange(c: nat, l: nat)
    requires l <= 5 && MinCode(l) <= c && High(c, l) < LeadRoom(l)
    ensures c < LIMIT && Extra(c) == l
  {
    hide Pow, High;
    HighIs(c, l);
    SixtyFour();
  }

  /** Every encoding is decoded, whatever follows it. */
  lemma DecodeEncode(c: nat, s: seq<Byte>, maxLen: int)
    requires c < LIMIT && Encode(c) <= s && |Encode(c)| <= maxLen <= |s|
    ensures Decode(s, maxLen) == Value(c, |Encode(c)|)
  {
    hide High, Continuation, Fold, Lead, LeadRoom, Announced;
    var l := Extra(c);
    LeadFits(c);
    AnnouncedLead(l, High(c, l));
    FoldBack(c, l);
    AllContinuation(c, l);
    var e := Encode(c);
    assert s[0] == e[0];
    assert s[1..1 + l] == e[1..] == Continuation(c, l);
    forall i | 1 <= i <= l ensures IsContinuation(s[i]) { assert s[i] == Continuation(c, l)[i - 1]; }
    MinOfExtra(c);
    if l == 0 { ZeroHigh(c); }
  }

  lemma MinOfExtra(c: nat)
    requires c < LIMIT
    ensures MinCode(Extra(c)) <= c
  {}

  lemma ZeroHigh(c: nat)
    ensures High(c, 0) == c && Lead(0) == 0
  {}

  /** Only encodings are decoded: the bytes used are exactly the encoding of the value. */
  lemma EncodeDecode(s: seq<Byte>, maxLen: int)
    requires |s| >= 1 && maxLen <= |s| && Decode(s, maxLen).Value?
    ensures
      var d := Decode(s, maxLen);
      d.c < LIMIT && Encode(d.c) == s[..d.used]
  {
    hide High, Continuation, Fold, Lead, LeadRoom, Announced, MinCode;
    var d, l := Decode(s, maxLen), Announced(s[0]);
    LeadOf(s[0]);
    ZeroHigh(d.c);
    if l == 0 {
      assert s[..1] == [s[0]];
      assert Continuation(d.c, 0) == [];
    } else {
      var h, bs := s[0] % LeadRoom(l), s[1..1 + l];
      forall i | 0 <= i < |bs| ensures IsContinuation(bs[i]) { assert bs[i] == s[i + 1]; }
      FoldParts(h, bs);
      ExtraRange(d.c, l);
      assert s[..l + 1] == [s[0]] + bs;
    }
  }

  /**
    * A value is decoded if and only if its encoding stands at the start and, unless it is a single byte, lies within
    * the first `maxLen` bytes.
    */
  lemma DecodeIs(s: seq<Byte>, maxLen: int, c: nat, n: nat)
    requires |s| >= 1 && maxLen <= |s| && c < LIMIT
    ensures Decode(s, maxLen) == Value(c, n) <==> n == |Encode(c)| && Encode(c) <= s && (n == 1 || n <= maxLen)
  {
    hide Encode, Fold, LeadRoom, Announced, MinCode;
    if Decode(s, maxLen) == Value(c, n) {
      EncodeDecode(s, maxLen);
    }
    if n == |Encode(c)| && Encode(c) <= s {
      if n <= maxLen {
        DecodeEncode(c, s, maxLen);
      } else if n == 1 {
        DecodeEncode(c, s, |s|);
        SingleByte(s, maxLen);
      }
    }
  }

  lemma SingleByte(s: seq<Byte>, maxLen: int)
    requires |s| >= 1 && maxLen <= |s| && Decode(s, |s|).Value? && Decode(s, |s|).used == 1
    ensures Decode(s, maxLen) == Decode(s, |s|)
  {
    hide Fold, LeadRoom, MinCode;
  }

  /** The answer depends on no byte but the first and those within `maxLen`. */
  lemma OnlyWithin(s: seq<Byte>, t: seq<Byte>, maxLen: int)
    requires |s| >= 1 && |t| >= 1 && maxLen <= |s| && maxLen <= |t|
    requires s[0] == t[0] && forall i :: 0 <= i < maxLen ==> s[i] == t[i]
    ensures Decode(s, maxLen) == Decode(t, maxLen)
  {
    hide Encode;
    var d, e := Decode(s, maxLen), Decode(t, maxLen);
    if d.Value? {
      EncodeDecode(s, maxLen);
      DecodeIs(s, maxLen, d.c, d.used);
      DecodeIs(t, maxLen, d.c, d.used);
    }
    if e.Value? {
      EncodeDecode(t, maxLen);
      DecodeIs(t, maxLen, e.c, e.used);
      DecodeIs(s, maxLen, e.c, e.used);
    }
  }

  // ----- streams -----

  function EncodeAll(cs: seq<nat>): (s: seq<Byte>)
    requires forall i :: 0 <= i < |cs| ==> cs[i] < LIMIT
  {
    if cs == [] then [] else Encode(cs[0]) + EncodeAll(cs[1..])
  }

  datatype Option<T> = None | Some(value: T)

  /** Decoding until the bytes are used up. */
  function DecodeAll(s: seq<Byte>): (r: Option<seq<nat>>)
    decreases |s|
  {
    if s == [] then Some([])
    else
      match Decode(s, |s|)
      case Bad => None
      case Value(c, used) =>
        match DecodeAll(s[used..])
        case None => None
        case Some(cs) => Some([c] + cs)
  }

  /** Encoding any values and decoding repeatedly returns them and uses every byte. */
  lemma {:induction false} StreamDecodes(cs: seq<nat>)
    requires forall i :: 0 <= i < |cs| ==> cs[i] < LIMIT
    ensures DecodeAll(EncodeAll(cs)) == Some(cs)
    decreases |cs|
  {
    hide Encode, Decode;
    if cs != [] {
      var e, rest := Encode(cs[0]), EncodeAll(cs[1..]);
      var s := e + rest;
      DecodeEncode(cs[0], s, |s|);
      assert s[|e|..] == rest;
      StreamDecodes(cs[1..]);
      assert cs == [cs[0]] + cs[1..];
    }
  }

  /** Bytes that decode are the one encoding of what they decode to. */
  lemma {:induction false} StreamCanonical(s: seq<Byte>)
    requires DecodeAll(s).Some?
    ensures
      var cs := DecodeAll(s).value;
      (forall i :: 0 <= i < |cs| ==> cs[i] < LIMIT) && EncodeAll(cs) == s
    decreases |s|
  {
    hide Encode, Decode;
    if s != [] {
      var d := Decode(s, |s|);
      EncodeDecode(s, |s|);
      StreamCanonical(s[d.used..]);
      var cs := DecodeAll(s[d.used..]).value;
      assert ([d.c] + cs)[1..] == cs;
      assert s == s[..d.used] + s[d.used..];
    }
  }

  // ----- the buffers -----

  lemma Masks(x: nat, m: nat, k: nat)
    requires x < Pow(2, k)
    ensures Or(x, m * Pow(2, k)) == m * Pow(2, k) + x
  {
    OrDisjoint(m, x, k);
  }

  /** A marker or-ed to the bits below it. */
  function Mark(x: nat, marker: nat): (b: nat)
    requires (marker == 0x80 && x < 64) || (marker == 0xC0 && x < 32) || (marker == 0xE0 && x < 16)
          || (marker == 0xF0 && x < 8) || (marker == 0xF8 && x < 4) || (marker == 0xFC && x < 2)
    ensures b == marker + x
  {
    assert Pow(2, 2) == 4 && Pow(2, 3) == 8 && Pow(2, 4) == 16 && Pow(2, 5) == 32 && Pow(2, 6) == 64;
    MarkIs(x, marker);
    Or(x, marker)
  }

  lemma MarkIs(x: nat, marker: nat)
    requires (marker == 0x80 && x < 64) || (marker == 0xC0 && x < 32) || (marker == 0xE0 && x < 16)
          || (marker == 0xF0 && x < 8) || (marker == 0xF8 && x < 4) || (marker == 0xFC && x < 2)
    ensures Or(x, marker) == marker + x
  {
    hide Or;
    assert Pow(2, 2) == 4 && Pow(2, 3) == 8 && Pow(2, 4) == 16 && Pow(2, 5) == 32 && Pow(2, 6) == 64;
    match marker
    case 0x80 => Masks(x, 2, 6);
    case 0xC0 => Masks(x, 3, 6);
    case 0xE0 => Masks(x, 7, 5);
    case 0xF0 => Masks(x, 15, 4);
    case 0xF8 => Masks(x, 31, 3);
    case _ => Masks(x, 63, 2);
  }

  /** unicode_to_utf8: the bytes written at the start of the buffer, or none for a value that does not fit. */
  method ToUtf8(buf: array<Byte>, c: nat) returns (len: nat)
    requires buf.Length >= 6
    modifies buf
    ensures c >= LIMIT ==> len == 0
    ensures c < LIMIT ==> len == |Encode(c)| && buf[..len] == Encode(c)
    ensures forall i :: len <= i < buf.Length ==> buf[i] == old(buf[i])
  {
    hide Or, Mark, Encode, Extra;
    var q := 0;
    if c < 0x80 {
      buf[q] := c;
      q := q + 1;
    } else {
      if c < 0x800 {
        buf[q] := Mark(c / 64, 0xC0);
        q := q + 1;
      } else {
        if c < 0x10000 {
          buf[q] := Mark(c / 0x1000, 0xE0);
          q := q + 1;
        } else {
          if c < 0x200000 {
            buf[q] := Mark(c / 0x40000, 0xF0);
            q := q + 1;
          } else {
            if c < 0x4000000 {
              buf[q] := Mark(c / 0x1000000, 0xF8);
              q := q + 1;
            } else if c < 0x80000000 {
              buf[q] := Mark(c / 0x40000000, 0xFC);
              q := q + 1;
              buf[q] := Mark(c / 0x1000000 % 64, 0x80);
              q := q + 1;
            } else {
              return 0;
            }
            buf[q] := Mark(c / 0x40000 % 64, 0x80);
            q := q + 1;
          }
          buf[q] := Mark(c / 0x1000 % 64, 0x80);
          q := q + 1;
        }
        buf[q] := Mark(c / 64 % 64, 0x80);
        q := q + 1;
      }
      buf[q] := Mark(c % 64, 0x80);
      q := q + 1;
    }
    len := q;
    Written(c);
  }

  /** The encoding byte by byte, as the table of section 2 of RFC 2279 gives it. */
  lemma Written(c: nat)
    requires c < LIMIT
    ensures
      var e, d := Encode(c), 0x80 + c % 64;
      var d1, d2 := 0x80 + c / 64 % 64, 0x80 + c / 0x1000 % 64;
      var d3, d4 := 0x80 + c / 0x40000 % 64, 0x80 + c / 0x1000000 % 64;
      && (c < 0x80 ==> e == [c])
      && (0x80 <= c < 0x800 ==> e == [0xC0 + c / 64, d])
      && (0x800 <= c < 0x1_0000 ==> e == [0xE0 + c / 0x1000, d1, d])
      && (0x1_0000 <= c < 0x20_0000 ==> e == [0xF0 + c / 0x4_0000, d2, d1, d])
      && (0x20_0000 <= c < 0x400_0000 ==> e == [0xF8 + c / 0x100_0000, d3, d2, d1, d])
      && (0x400_0000 <= c ==> e == [0xFC + c / 0x4000_0000, d4, d3, d2, d1, d])
  {
    var c1, c2, c3, c4, c5 := c / 64, c / 64 / 64, c / 64 / 64 / 64, c / 64 / 64 / 64 / 64, c / 64 / 64 / 64 / 64 / 64;
    assert c2 == c / 0x1000 && c3 == c / 0x40000 && c4 == c / 0x1000000 && c5 == c / 0x40000000;
    match Extra(c)
    case 0 =>
    case 1 => Tail1(c);
    case 2 => Tail2(c);
    case 3 => Tail3(c);
    case 4 => Tail4(c);
    case _ => Tail5(c);
  }

  lemma Tail1(c: nat)
    ensures High(c, 1) == c / 64 && Continuation(c, 1) == [0x80 + c % 64]
  {
    assert Continuation(c / 64, 0) == [];
  }

  lemma Tail2(c: nat)
    ensures High(c, 2) == c / 64 / 64 && Continuation(c, 2) == [0x80 + c / 64 % 64, 0x80 + c % 64]
  {
    Tail1(c / 64);
  }

  lemma Tail3(c: nat)
    ensures High(c, 3) == c / 64 / 64 / 64
    ensures Continuation(c, 3) == [0x80 + c / 64 / 64 % 64, 0x80 + c / 64 % 64, 0x80 + c % 64]
  {
    Tail2(c / 64);
  }

  lemma Tail4(c: nat)
    ensures High(c, 4) == c / 64 / 64 / 64 / 64
    ensures Continuation(c, 4)
         == [0x80 + c / 64 / 64 / 64 % 64, 0x80 + c / 64 / 64 % 64, 0x80 + c / 64 % 64, 0x80 + c % 64]
  {
    Tail3(c / 64);
  }

  lemma Tail5(c: nat)
    ensures High(c, 5) == c / 64 / 64 / 64 / 64 / 64
    ensures Continuation(c, 5)
         == [0x80 + c / 64 / 64 / 64 / 64 % 64, 0x80 + c / 64 / 64 / 64 % 64, 0x80 + c / 64 / 64 % 64,
             0x80 + c / 64 % 64, 0x80 + c % 64]
  {
    Tail4(c / 64);
  }

  /** unicode_from_utf8 on the bytes from `p`; -1 for anything that is not an encoding. */
  method FromUtf8(s: seq<Byte>, maxLen: int) returns (c: int, used: nat)
    requires |s| >= 1 && maxLen <= |s|
    ensures
      match Decode(s, maxLen)
      case Bad => c == -1
      case Value(v, n) => c == v && used == n
    ensures c >= 0 ==> 1 <= used <= |s| && (s[0] >= 0x80 ==> 2 <= used <= maxLen)
  {
    hide Or, Fold;
    used := 0;
    c := s[0];
    var p := 1;
    if c < 0x80 {
      used := p;
      return;
    }
    var l := Announced(s[0]);
    if l < 0 || l > maxLen - 1 {
      return -1, 0;
    }
    c := c % LeadRoom(l);
    ghost var first := c;
    var i := 0;
    FoldNone(c);
    assert s[1..1] == [];
    while i < l
      invariant 0 <= i <= l && p == 1 + i && c >= 0 && c == Fold(first, s[1..1 + i])
      invariant forall j :: 1 <= j <= i ==> IsContinuation(s[j])
    {
      var b := s[p];
      p := p + 1;
      if b < 0x80 || b >= 0xC0 {
        return -1, 0;
      }
      SixBits(c, b % 64);
      FoldMore(first, s, i);
      c := Or(b % 64, c * 64);
      i := i + 1;
    }
    if c < MinCode(l) {
      return -1, 0;
    }
    used := p;
  }

  lemma FoldNone(c: nat)
    ensures Fold(c, []) == c
  {}

  lemma FoldMore(c: nat, s: seq<Byte>, i: nat)
    requires 1 + i < |s|
    ensures Fold(c, s[1..2 + i]) == Fold(c, s[1..1 + i]) * 64 + s[1 + i] % 64
  {
    assert s[1..2 + i][..i] == s[1..1 + i];
  }

  lemma SixBits(c: nat, d: nat)
    requires d < 64
    ensures Or(d, c * 64) == c * 64 + d
  {
    assert Pow(2, 6) == 64;
    OrDisjoint(c, d, 6);
  }
}
