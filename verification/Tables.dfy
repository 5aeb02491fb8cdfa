/** The constant tables of src/dtoa.c for radices 2 to 36, and what their entries guarantee. */
module Tables {
  import opened Powers
  import opened Limbs

  predicate IsRadix(r: nat) {
    2 <= r <= 36
  }

  predicate IsPow2Radix(r: nat) {
    r == 2 || r == 4 || r == 8 || r == 16 || r == 32
  }

  /** digits_per_limb_table. */
  function DigitsPerLimb(r: nat): (x: nat)
    requires IsRadix(r)
  {
    match r
    case 2 => 64 case 3 => 40 case 4 => 32 case 5 => 27 case 6 => 24 case 7 => 22 case 8 => 21 case 9 => 20
    case 10 => 19 case 11 => 18 case 12 => 17 case 13 => 17 case 14 => 16 case 15 => 16 case 16 => 16 case 17 => 15
    case 18 => 15 case 19 => 15 case 20 => 14 case 21 => 14 case 22 => 14 case 23 => 14 case 24 => 13 case 25 => 13
    case 26 => 13 case 27 => 13 case 28 => 13 case 29 => 13 case 30 => 13 case 31 => 12 case 32 => 12 case 33 => 12
    case 34 => 12 case 35 => 12 case _ => 12
  }

  /** radix_base_table: radix^digits_per_limb truncated to a limb. */
  function RadixBase(r: nat): (x: Limb)
    requires IsRadix(r)
  {
    match r
    case 2 => 0x0 case 3 => 0xA8B8B452291FE821 case 4 => 0x0 case 5 => 0x6765C793FA10079D
    case 6 => 0x41C21CB8E1000000 case 7 => 0x3642798750226111 case 8 => 0x8000000000000000 case 9 => 0xA8B8B452291FE821
    case 10 => 0x8AC7230489E80000 case 11 => 0x4D28CB56C33FA539
    case 12 => 0x1ECA170C00000000 case 13 => 0x780C7372621BD74D
    case 14 => 0x1E39A5057D810000 case 15 => 0x5B27AC993DF97701 case 16 => 0x0 case 17 => 0x27B95E997E21D9F1
    case 18 => 0x5DA0E1E53C5C8000 case 19 => 0xD2AE3299C1C4AEDB
    case 20 => 0x16BCC41E90000000 case 21 => 0x2D04B7FDD9C0EF49
    case 22 => 0x5658597BCAA24000 case 23 => 0xA0E2073737609371
    case 24 => 0xC29E98000000000 case 25 => 0x14ADF4B7320334B9
    case 26 => 0x226ED36478BFA000 case 27 => 0x383D9170B85FF80B
    case 28 => 0x5A3C23E39C000000 case 29 => 0x8E65137388122BCD
    case 30 => 0xDD41BB36D259E000 case 31 => 0xAEE5720EE830681
    case 32 => 0x1000000000000000 case 33 => 0x172588AD4F5F0981
    case 34 => 0x211E44F7D02C1000 case 35 => 0x2EE56725F06E5C71 case _ => 0x41C21CB8E1000000
  }

  /** dtoa_max_digits_table. */
  function DtoaMaxDigits(r: nat): (x: nat)
    requires IsRadix(r)
  {
    match r
    case 2 => 54 case 3 => 35 case 4 => 28 case 5 => 24 case 6 => 22 case 7 => 20 case 8 => 19 case 9 => 18
    case 10 => 17 case 11 => 17 case 12 => 16 case 13 => 16 case 14 => 15 case 15 => 15 case 16 => 15 case 17 => 14
    case 18 => 14 case 19 => 14 case 20 => 14 case 21 => 14 case 22 => 13 case 23 => 13 case 24 => 13 case 25 => 13
    case 26 => 13 case 27 => 13 case 28 => 13 case 29 => 12 case 30 => 12 case 31 => 12 case 32 => 12 case 33 => 12
    case 34 => 12 case 35 => 12 case _ => 12
  }

  /** atod_max_digits_table. */
  function AtodMaxDigits(r: nat): (x: nat)
    requires IsRadix(r)
  {
    match r
    case 2 => 64 case 3 => 80 case 4 => 32 case 5 => 55 case 6 => 49 case 7 => 45 case 8 => 21 case 9 => 40
    case 10 => 38 case 11 => 37 case 12 => 35 case 13 => 34 case 14 => 33 case 15 => 32 case 16 => 16 case 17 => 31
    case 18 => 30 case 19 => 30 case 20 => 29 case 21 => 29 case 22 => 28 case 23 => 28 case 24 => 27 case 25 => 27
    case 26 => 27 case 27 => 26 case 28 => 26 case 29 => 26 case 30 => 26 case 31 => 25 case 32 => 12 case 33 => 25
    case 34 => 25 case 35 => 24 case _ => 24
  }

  /** max_exponent. */
  function MaxExponent(r: nat): (x: nat)
    requires IsRadix(r)
  {
    match r
    case 2 => 1024 case 3 => 647 case 4 => 512 case 5 => 442 case 6 => 397 case 7 => 365 case 8 => 342
    case 9 => 324 case 10 => 309 case 11 => 297 case 12 => 286 case 13 => 277 case 14 => 269 case 15 => 263
    case 16 => 256 case 17 => 251 case 18 => 246 case 19 => 242 case 20 => 237 case 21 => 234 case 22 => 230
    case 23 => 227 case 24 => 224 case 25 => 221 case 26 => 218 case 27 => 216 case 28 => 214 case 29 => 211
    case 30 => 209 case 31 => 207 case 32 => 205 case 33 => 203 case 34 => 202 case 35 => 200 case _ => 199
  }

  /** min_exponent, negated. */
  function MinExponentNeg(r: nat): (x: nat)
    requires IsRadix(r)
  {
    match r
    case 2 => 1075 case 3 => 679 case 4 => 538 case 5 => 463 case 6 => 416 case 7 => 383 case 8 => 359
    case 9 => 340 case 10 => 324 case 11 => 311 case 12 => 300 case 13 => 291 case 14 => 283 case 15 => 276
    case 16 => 269 case 17 => 263 case 18 => 258 case 19 => 254 case 20 => 249 case 21 => 245 case 22 => 242
    case 23 => 238 case 24 => 235 case 25 => 232 case 26 => 229 case 27 => 227 case 28 => 224 case 29 => 222
    case 30 => 220 case 31 => 217 case 32 => 215 case 33 => 214 case 34 => 212 case 35 => 210 case _ => 208
  }

  /** mul_log2_radix_table: 2^24 / log2(radix), rounded. */
  function LogMultiplier(r: nat): (x: nat)
    requires IsRadix(r)
  {
    match r
    case 2 => 0x0 case 3 => 0xA1849D case 4 => 0x0 case 5 => 0x6E40D2 case 6 => 0x6308C9 case 7 => 0x5B3065
    case 8 => 0x0 case 9 => 0x50C24E case 10 => 0x4D104D case 11 => 0x4A0027 case 12 => 0x4768CE case 13 => 0x452E54
    case 14 => 0x433D00 case 15 => 0x418677 case 16 => 0x0 case 17 => 0x3EA16B case 18 => 0x3D645A case 19 => 0x3C43C2
    case 20 => 0x3B3B9A case 21 => 0x3A4899 case 22 => 0x39680B
    case 23 => 0x3897B3 case 24 => 0x37D5AF case 25 => 0x372069
    case 26 => 0x367686 case 27 => 0x35D6DF case 28 => 0x354072
    case 29 => 0x34B261 case 30 => 0x342BEA case 31 => 0x33AC62
    case 32 => 0x0 case 33 => 0x32BFD9 case 34 => 0x3251DD case 35 => 0x31E8D6 case _ => 0x318465
  }

  /** The largest power of each radix below 2^53. */
  function PowerBelow(r: nat): (x: nat)
    requires IsRadix(r)
  {
    match r
    case 2 => 0x10000000000000 case 3 => 0x13BFEFA65ABB83 case 4 => 0x10000000000000 case 5 => 0x878678326EAC9
    case 6 => 0xCFD41B9100000 case 7 => 0x5C908960D05B1 case 8 => 0x8000000000000 case 9 => 0x6954FE21E3E81
    case 10 => 0x38D7EA4C68000 case 11 => 0xED72F6146D3E3 case 12 => 0x48FB790000000 case 13 => 0xDFD05E0D10DD9
    case 14 => 0x2D1E11F1CE000 case 15 => 0x6EA0DD9B692CF case 16 => 0x10000000000000 case 17 => 0x211E44F7D02C1
    case 18 => 0x41C21CB8E1000 case 19 => 0x7DCFF8986EA31 case 20 => 0xE8D4A51000000 case 21 => 0x1A22160DD86211
    case 22 => 0x2136F34CA9800 case 23 => 0x362934F28B347 case 24 => 0x567F600000000 case 25 => 0x878678326EAC9
    case 26 => 0xD0A28AB59A800 case 27 => 0x13BFEFA65ABB83 case 28 => 0x1D76E725C00000 case 29 => 0x17EA18931FEE9
    case 30 => 0x2190C2AB18400 case 31 => 0x2E97294E4B2C1 case 32 => 0x4000000000000 case 33 => 0x570F6855CB541
    case 34 => 0x7558A66B68400 case 35 => 0x9CCE25B1A3669 case _ => 0xCFD41B9100000
  }

  // ----- what each row guarantees, checked by evaluation -----

  predicate DigitsRow(r: nat, d: nat, base: nat) {
    && 12 <= d <= 64
    && if r == 2 || r == 4 || r == 16 then Square(r, d) == 0x1_0000_0000_0000_0000 && base == 0
       else Square(r, d) == base && 0x400_0000_0000_0000 <= base < 0x1_0000_0000_0000_0000
  }

  predicate DtoaRow(r: nat, d: nat, top: nat) {
    && 12 <= d <= 54 && Square(r, d - 2) == top
    && top < 0x20_0000_0000_0000 <= r * top && r * (r * top) < 0x8000_0000_0000_0000
  }

  predicate DigitsRows(r: nat, low: nat)
    requires 2 <= low && r <= 36
    decreases r
  {
    r < low || (DigitsRow(r, DigitsPerLimb(r), RadixBase(r)) && DigitsRows(r - 1, low))
  }

  lemma {:induction false} DigitsPick(r: nat, top: nat, low: nat)
    requires 2 <= low <= r <= top <= 36 && DigitsRows(top, low)
    ensures DigitsRow(r, DigitsPerLimb(r), RadixBase(r))
    decreases top
  {
    if r < top { DigitsPick(r, top - 1, low); }
  }

  lemma DigitsRows5()
    ensures DigitsRows(5, 2)
  {}

  lemma DigitsRows9()
    ensures DigitsRows(9, 6)
  {}

  lemma DigitsRows13()
    ensures DigitsRows(13, 10)
  {}

  lemma DigitsRows17()
    ensures DigitsRows(17, 14)
  {}

  lemma DigitsRows21()
    ensures DigitsRows(21, 18)
  {}

  lemma DigitsRows25()
    ensures DigitsRows(25, 22)
  {}

  lemma DigitsRows29()
    ensures DigitsRows(29, 26)
  {}

  lemma DigitsRows33()
    ensures DigitsRows(33, 30)
  {}

  lemma DigitsRows36()
    ensures DigitsRows(36, 34)
  {}

  /** As many digits as fit a limb: radix^digits is the base, or exactly one past the largest limb. */
  lemma DigitsTable(r: nat)
    requires IsRadix(r)
    ensures 12 <= DigitsPerLimb(r) <= 64 && Pow(r, DigitsPerLimb(r)) >= 0x400_0000_0000_0000
    ensures if r == 2 || r == 4 || r == 16 then Pow(r, DigitsPerLimb(r)) == BASE && RadixBase(r) == 0
            else Pow(r, DigitsPerLimb(r)) < BASE && RadixBase(r) == Pow(r, DigitsPerLimb(r))
  {
    hide DigitsRows, DigitsPerLimb, RadixBase;
    if r <= 5 {
      DigitsRows5();
      DigitsPick(r, 5, 2);
    } else if r <= 9 {
      DigitsRows9();
      DigitsPick(r, 9, 6);
    } else if r <= 13 {
      DigitsRows13();
      DigitsPick(r, 13, 10);
    } else if r <= 17 {
      DigitsRows17();
      DigitsPick(r, 17, 14);
    } else if r <= 21 {
      DigitsRows21();
      DigitsPick(r, 21, 18);
    } else if r <= 25 {
      DigitsRows25();
      DigitsPick(r, 25, 22);
    } else if r <= 29 {
      DigitsRows29();
      DigitsPick(r, 29, 26);
    } else if r <= 33 {
      DigitsRows33();
      DigitsPick(r, 33, 30);
    } else {
      DigitsRows36();
      DigitsPick(r, 36, 34);
    }
    SquareIsPow(r, DigitsPerLimb(r));
  }

  predicate DtoaRows(r: nat, low: nat)
    requires 2 <= low && r <= 36
    decreases r
  {
    r < low || (DtoaRow(r, DtoaMaxDigits(r), PowerBelow(r)) && DtoaRows(r - 1, low))
  }

  lemma {:induction false} DtoaPick(r: nat, top: nat, low: nat)
    requires 2 <= low <= r <= top <= 36 && DtoaRows(top, low)
    ensures DtoaRow(r, DtoaMaxDigits(r), PowerBelow(r))
    decreases top
  {
    if r < top { DtoaPick(r, top - 1, low); }
  }

  lemma DtoaRows4()
    ensures DtoaRows(4, 2)
  {}

  lemma DtoaRows7()
    ensures DtoaRows(7, 5)
  {}

  lemma DtoaRows10()
    ensures DtoaRows(10, 8)
  {}

  lemma DtoaRows13()
    ensures DtoaRows(13, 11)
  {}

  lemma DtoaRows16()
    ensures DtoaRows(16, 14)
  {}

  lemma DtoaRows19()
    ensures DtoaRows(19, 17)
  {}

  lemma DtoaRows22()
    ensures DtoaRows(22, 20)
  {}

  lemma DtoaRows25()
    ensures DtoaRows(25, 23)
  {}

  lemma DtoaRows28()
    ensures DtoaRows(28, 26)
  {}

  lemma DtoaRows31()
    ensures DtoaRows(31, 29)
  {}

  lemma DtoaRows34()
    ensures DtoaRows(34, 32)
  {}

  lemma DtoaRows36()
    ensures DtoaRows(36, 35)
  {}

  /** Just enough digits for every double: the least radix^(digits - 1) to reach 2^53, and radix^digits fits 63 bits. */
  lemma DtoaTable(r: nat)
    requires IsRadix(r)
    ensures 12 <= DtoaMaxDigits(r) <= 54
    ensures Pow(r, DtoaMaxDigits(r) - 2) < 0x20_0000_0000_0000 <= Pow(r, DtoaMaxDigits(r) - 1)
    ensures Pow(r, DtoaMaxDigits(r)) < 0x8000_0000_0000_0000
  {
    hide DtoaRows, DtoaMaxDigits, PowerBelow;
    if r <= 4 {
      DtoaRows4();
      DtoaPick(r, 4, 2);
    } else if r <= 7 {
      DtoaRows7();
      DtoaPick(r, 7, 5);
    } else if r <= 10 {
      DtoaRows10();
      DtoaPick(r, 10, 8);
    } else if r <= 13 {
      DtoaRows13();
      DtoaPick(r, 13, 11);
    } else if r <= 16 {
      DtoaRows16();
      DtoaPick(r, 16, 14);
    } else if r <= 19 {
      DtoaRows19();
      DtoaPick(r, 19, 17);
    } else if r <= 22 {
      DtoaRows22();
      DtoaPick(r, 22, 20);
    } else if r <= 25 {
      DtoaRows25();
      DtoaPick(r, 25, 23);
    } else if r <= 28 {
      DtoaRows28();
      DtoaPick(r, 28, 26);
    } else if r <= 31 {
      DtoaRows31();
      DtoaPick(r, 31, 29);
    } else if r <= 34 {
      DtoaRows34();
      DtoaPick(r, 34, 32);
    } else {
      DtoaRows36();
      DtoaPick(r, 36, 35);
    }
    SquareIsPow(r, DtoaMaxDigits(r) - 2);
    PowUnfold(r, DtoaMaxDigits(r) - 2);
    PowUnfold(r, DtoaMaxDigits(r) - 1);
  }
}
