/**
  * Certificates for mul_log2_radix_table of src/dtoa.c. Each multiplier lies between two neighbouring
  * fractions around log_r(2); short certificates bound the two powers that prove it.
  */
module LogTables {
  import opened Powers
  import opened Rounding
  import opened Tables

  // ----- certified bounds on large powers -----

  /** 256^t for the shifts the certificates use. */
  function Byte(t: nat): (x: nat) {
    match t
    case 0 => 1 case 1 => 0x100 case 2 => 0x1_0000 case 3 => 0x100_0000 case 4 => 0x1_0000_0000
    case 5 => 0x100_0000_0000 case 6 => 0x1_0000_0000_0000 case _ => Square(256, t)
  }

  lemma BytePow(t: nat)
    ensures Byte(t) == Pow(2, 8 * t)
  {
    hide Pow;
    SquareIsPow(256, t);
    SquareIsPow(2, 8);
    assert Square(2, 8) == 256;
    PowPow(2, 8, t);
    assert Square(256, 0) == 1 && Square(256, 1) == 0x100 && Square(256, 2) == 0x1_0000;
    assert Square(256, 3) == 0x100_0000 && Square(256, 4) == 0x1_0000_0000;
    assert Square(256, 5) == 0x100_0000_0000 && Square(256, 6) == 0x1_0000_0000_0000;
  }

  lemma SquareTerms(m: int, p: int, f: int, m': int, u: int)
    ensures f * ((m * p) * (m * p)) == (m * m * f) * (p * p)
    ensures (m' * u) * (p * p) == m' * ((p * p) * u)
  {
    MulRearrange(m, p, m, p);
    assert f * ((m * m) * (p * p)) == (m * m * f) * (p * p);
  }

  /** r^(2k), times r^b, from an upper bound m * 2^s on r^k; the new bound is m' * 2^(2s + 8t). */
  lemma Up(r: nat, k: nat, m: nat, s: nat, b: nat, m': nat, t: nat)
    requires b <= 1 && Pow(r, k) <= m * Pow(2, s) && m * m * (if b == 1 then r else 1) <= m' * Byte(t)
    ensures Pow(r, 2 * k + b) <= m' * Pow(2, 2 * s + 8 * t)
  {
    hide Pow, Byte;
    var v, p, u, f := Pow(r, k), Pow(2, s), Pow(2, 8 * t), if b == 1 then r else 1;
    BytePow(t);
    PowAdd(r, k, k);
    PowUnfold(r, 2 * k);
    PowAdd(2, s, s);
    PowAdd(2, 2 * s, 8 * t);
    MulMono(v, m * p, v, m * p);
    MulMono(f, f, v * v, (m * p) * (m * p));
    MulMono(m * m * f, m' * u, p * p, p * p);
    SquareTerms(m, p, f, m', u);
  }

  lemma Down(r: nat, k: nat, m: nat, s: nat, b: nat, m': nat, t: nat)
    requires b <= 1 && Pow(r, k) >= m * Pow(2, s) && m * m * (if b == 1 then r else 1) >= m' * Byte(t)
    ensures Pow(r, 2 * k + b) >= m' * Pow(2, 2 * s + 8 * t)
  {
    hide Pow, Byte;
    var v, p, u, f := Pow(r, k), Pow(2, s), Pow(2, 8 * t), if b == 1 then r else 1;
    BytePow(t);
    PowAdd(r, k, k);
    PowUnfold(r, 2 * k);
    PowAdd(2, s, s);
    PowAdd(2, 2 * s, 8 * t);
    MulMono(0, m, 0, p);
    MulMono(m * p, v, m * p, v);
    MulMono(f, f, (m * p) * (m * p), v * v);
    MulMono(0, m', 0, u);
    MulMono(m' * u, m * m * f, p * p, p * p);
    SquareTerms(m, p, f, m', u);
  }

  lemma Start(r: nat)
    ensures Pow(r, 1) == r * Pow(2, 0)
  {
    PowUnfold(r, 0);
  }

  lemma Finish(m: nat, s: nat, q: nat, w: nat)
    requires q == s + w
    ensures m < Square(2, w) ==> m * Pow(2, s) < Pow(2, q)
    ensures m > Square(2, w) ==> m * Pow(2, s) > Pow(2, q)
  {
    hide Pow, Square;
    SquareIsPow(2, w);
    PowAdd(2, w, s);
    PowPositive(2, s);
    if m < Square(2, w) { StrictMul(m, Pow(2, w), Pow(2, s)); }
    if m > Square(2, w) { StrictMul(Pow(2, w), m, Pow(2, s)); }
  }

  /** p1/q1 < log_r(2) < p2/q2, neighbouring fractions. */
  datatype Bracket = Bracket(p1: nat, q1: nat, p2: nat, q2: nat)

  predicate NeedsBracket(r: nat) {
    IsRadix(r) && !IsPow2Radix(r)
  }

  function LogBracket(r: nat): (b: Bracket)
    requires NeedsBracket(r)
  {
    match r
    case 3 => Bracket(306, 485, 665, 1054)
    case 5 => Bracket(351, 815, 146, 339)
    case 6 => Bracket(306, 791, 359, 928)
    case 7 => Bracket(353, 991, 109, 306)
    case 9 => Bracket(153, 485, 206, 653)
    case 10 => Bracket(205, 681, 146, 485)
    case 11 => Bracket(37, 128, 283, 979)
    case 12 => Bracket(306, 1097, 53, 190)
    case 13 => Bracket(227, 840, 237, 877)
    case 14 => Bracket(244, 929, 109, 415)
    case 15 => Bracket(43, 168, 247, 965)
    case 17 => Bracket(80, 327, 263, 1075)
    case 18 => Bracket(153, 638, 206, 859)
    case 19 => Bracket(121, 514, 238, 1011)
    case 20 => Bracket(205, 886, 146, 631)
    case 21 => Bracket(209, 918, 130, 571)
    case 22 => Bracket(37, 165, 246, 1097)
    case 23 => Bracket(212, 959, 191, 864)
    case 24 => Bracket(200, 917, 53, 243)
    case 25 => Bracket(205, 952, 73, 339)
    case 26 => Bracket(227, 1067, 10, 47)
    case 27 => Bracket(102, 485, 155, 737)
    case 28 => Bracket(135, 649, 109, 524)
    case 29 => Bracket(169, 821, 176, 855)
    case 30 => Bracket(43, 211, 204, 1001)
    case 31 => Bracket(131, 649, 109, 540)
    case 33 => Bracket(45, 227, 203, 1024)
    case 34 => Bracket(80, 407, 183, 931)
    case 35 => Bracket(116, 595, 147, 754)
    case _ => Bracket(153, 791, 206, 1065)
  }

  /** What a row of the tables and its bracket satisfy. */
  predicate RowOk(mult: nat, maxE: nat, minE: nat, digits: nat, b: Bracket) {
    && b.q1 > 0 && b.q2 > 0 && b.p1 > 0 && b.p2 * b.q1 == b.p1 * b.q2 + 1 && b.q1 + b.q2 > 1100
    && b.p1 * 0x100_0000 < mult * b.q1 && mult * b.q2 < b.p2 * 0x100_0000
    && b.q2 * maxE >= 1024 * b.p2 && b.q2 * minE >= 1075 * b.p2
    && b.q1 * maxE <= 1060 * b.p1 && b.q1 * minE <= 1110 * b.p1
    && b.q1 * digits <= 128 * b.p1
    && b.q1 * (maxE - 1) <= 1024 * b.p1 && b.q1 * (minE - 1) <= 1075 * b.p1 && b.q2 * (digits + 1) >= 128 * b.p2
  }

  predicate RowsOk(r: nat, low: nat)
    requires 2 <= low && r <= 36
    decreases r
  {
    r < low ||
    (&& (NeedsBracket(r) ==>
           RowOk(LogMultiplier(r), MaxExponent(r), MinExponentNeg(r), AtodMaxDigits(r), LogBracket(r)))
     && RowsOk(r - 1, low))
  }

  lemma {:induction false} RowsPick(r: nat, top: nat, low: nat)
    requires 2 <= low <= r <= top <= 36 && RowsOk(top, low) && NeedsBracket(r)
    ensures RowOk(LogMultiplier(r), MaxExponent(r), MinExponentNeg(r), AtodMaxDigits(r), LogBracket(r))
    decreases top
  {
    hide RowOk, LogBracket, LogMultiplier, MaxExponent, MinExponentNeg, AtodMaxDigits;
    if r < top { RowsPick(r, top - 1, low); }
  }

  lemma Upper3()
    ensures Pow(3, 306) < Pow(2, 485)
  {
    hide Pow;
    Start(3);
    Up(3, 1, 3, 0, 0, 9, 0); Up(3, 2, 9, 0, 0, 81, 0); Up(3, 4, 81, 0, 1, 19683, 0);
    Up(3, 9, 19683, 0, 1, 1162261467, 0); Up(3, 19, 1162261467, 0, 0, 80517036777, 3);
    Up(3, 38, 80517036777, 24, 0, 5896247978, 5); Up(3, 76, 5896247978, 88, 1, 24283589017, 4);
    Up(3, 153, 24283589017, 208, 0, 137298529863, 4); Finish(137298529863, 448, 485, 37);
  }

  lemma Lower3()
    ensures Pow(3, 665) > Pow(2, 1054)
  {
    hide Pow;
    Start(3);
    Down(3, 1, 3, 0, 0, 9, 0); Down(3, 2, 9, 0, 1, 243, 0); Down(3, 5, 243, 0, 0, 59049, 0);
    Down(3, 10, 59049, 0, 0, 3486784401, 0); Down(3, 20, 3486784401, 0, 1, 8492031222, 4);
    Down(3, 41, 8492031222, 32, 1, 50371462205, 4); Down(3, 83, 50371462205, 96, 0, 590757514506, 4);
    Down(3, 166, 590757514506, 224, 0, 317408594987, 5); Down(3, 332, 317408594987, 488, 1, 274889906463, 5);
    Finish(274889906463, 1016, 1054, 38);
  }

  lemma Upper5()
    ensures Pow(5, 351) < Pow(2, 815)
  {
    hide Pow;
    Start(5);
    Up(5, 1, 5, 0, 0, 25, 0); Up(5, 2, 25, 0, 1, 3125, 0); Up(5, 5, 3125, 0, 0, 9765625, 0);
    Up(5, 10, 9765625, 0, 1, 7275957615, 2); Up(5, 21, 7275957615, 16, 1, 61629758235, 4);
    Up(5, 43, 61629758235, 64, 1, 17272337119, 5); Up(5, 87, 17272337119, 168, 1, 347306054962, 4);
    Up(5, 175, 347306054962, 368, 1, 548523056811, 5); Finish(548523056811, 776, 815, 39);
  }

  lemma Lower5()
    ensures Pow(5, 146) > Pow(2, 339)
  {
    hide Pow;
    Start(5);
    Down(5, 1, 5, 0, 0, 25, 0); Down(5, 2, 25, 0, 0, 625, 0); Down(5, 4, 625, 0, 1, 1953125, 0);
    Down(5, 9, 1953125, 0, 0, 14901161193, 1); Down(5, 18, 14901161193, 8, 0, 51698788278, 4);
    Down(5, 36, 51698788278, 48, 1, 12154326711, 5); Down(5, 73, 12154326711, 136, 0, 34395525650, 4);
    Finish(34395525650, 304, 339, 35);
  }

  lemma Upper6()
    ensures Pow(6, 306) < Pow(2, 791)
  {
    hide Pow;
    Start(6);
    Up(6, 1, 6, 0, 0, 36, 0); Up(6, 2, 36, 0, 0, 1296, 0); Up(6, 4, 1296, 0, 1, 10077696, 0);
    Up(6, 9, 10077696, 0, 1, 9298091736, 2); Up(6, 19, 9298091736, 16, 0, 20129259195, 4);
    Up(6, 38, 20129259195, 64, 0, 94339967645, 4); Up(6, 76, 94339967645, 160, 1, 48567178030, 5);
    Up(6, 153, 48567178030, 360, 0, 549194119358, 4); Finish(549194119358, 752, 791, 39);
  }

  lemma Lower6()
    ensures Pow(6, 359) > Pow(2, 928)
  {
    hide Pow;
    Start(6);
    Down(6, 1, 6, 0, 0, 36, 0); Down(6, 2, 36, 0, 1, 7776, 0); Down(6, 5, 7776, 0, 1, 362797056, 0);
    Down(6, 11, 362797056, 0, 0, 7845264902, 3); Down(6, 22, 7845264902, 24, 0, 14330302687, 4);
    Down(6, 44, 14330302687, 80, 1, 286881218339, 4); Down(6, 89, 286881218339, 192, 1, 449113031767, 5);
    Down(6, 179, 449113031767, 424, 1, 4299547710, 6); Finish(4299547710, 896, 928, 32);
  }

  lemma Upper7()
    ensures Pow(7, 353) < Pow(2, 991)
  {
    hide Pow;
    Start(7);
    Up(7, 1, 7, 0, 0, 49, 0); Up(7, 2, 49, 0, 1, 16807, 0); Up(7, 5, 16807, 0, 1, 1977326743, 0);
    Up(7, 11, 1977326743, 0, 0, 233043494737, 3); Up(7, 22, 233043494737, 24, 0, 49393993722, 5);
    Up(7, 44, 49393993722, 88, 0, 568052431525, 4); Up(7, 88, 568052431525, 208, 0, 293478992682, 5);
    Up(7, 176, 293478992682, 456, 1, 548342935890, 5); Finish(548342935890, 952, 991, 39);
  }

  lemma Lower7()
    ensures Pow(7, 109) > Pow(2, 306)
  {
    hide Pow;
    Start(7);
    Down(7, 1, 7, 0, 1, 343, 0); Down(7, 3, 343, 0, 0, 117649, 0); Down(7, 6, 117649, 0, 1, 96889010407, 0);
    Down(7, 13, 96889010407, 0, 1, 59765045410, 5); Down(7, 27, 59765045410, 40, 0, 831638614847, 4);
    Down(7, 54, 831638614847, 112, 1, 17199964119, 6); Finish(17199964119, 272, 306, 34);
  }

  lemma Upper9()
    ensures Pow(9, 153) < Pow(2, 485)
  {
    hide Pow;
    Start(9);
    Up(9, 1, 9, 0, 0, 81, 0); Up(9, 2, 81, 0, 0, 6561, 0); Up(9, 4, 6561, 0, 1, 387420489, 0);
    Up(9, 9, 387420489, 0, 1, 80517036777, 3); Up(9, 19, 80517036777, 24, 0, 5896247978, 5);
    Up(9, 38, 5896247978, 88, 0, 8094529673, 4); Up(9, 76, 8094529673, 208, 1, 137298529885, 4);
    Finish(137298529885, 448, 485, 37);
  }

  lemma Lower9()
    ensures Pow(9, 206) > Pow(2, 653)
  {
    hide Pow;
    Start(9);
    Down(9, 1, 9, 0, 1, 729, 0); Down(9, 3, 729, 0, 0, 531441, 0); Down(9, 6, 531441, 0, 0, 282429536481, 0);
    Down(9, 12, 282429536481, 0, 1, 652924416219, 5); Down(9, 25, 652924416219, 40, 1, 13631025693, 6);
    Down(9, 51, 13631025693, 128, 1, 389349589354, 4); Down(9, 103, 389349589354, 288, 0, 137873123758, 5);
    Finish(137873123758, 616, 653, 37);
  }

  lemma Upper10()
    ensures Pow(10, 205) < Pow(2, 681)
  {
    hide Pow;
    Start(10);
    Up(10, 1, 10, 0, 1, 1000, 0); Up(10, 3, 1000, 0, 0, 1000000, 0); Up(10, 6, 1000000, 0, 0, 1000000000000, 0);
    Up(10, 12, 1000000000000, 0, 1, 35527136789, 6); Up(10, 25, 35527136789, 48, 1, 11479437021, 5);
    Up(10, 51, 11479437021, 136, 0, 30681834165, 4); Up(10, 102, 30681834165, 304, 1, 8561755274, 5);
    Finish(8561755274, 648, 681, 33);
  }

  lemma Lower10()
    ensures Pow(10, 146) > Pow(2, 485)
  {
    hide Pow;
    Start(10);
    Down(10, 1, 10, 0, 0, 100, 0); Down(10, 2, 100, 0, 0, 10000, 0); Down(10, 4, 10000, 0, 1, 1000000000, 0);
    Down(10, 9, 1000000000, 0, 0, 59604644775, 3); Down(10, 18, 59604644775, 24, 0, 827180612542, 4);
    Down(10, 36, 827180612542, 80, 1, 24308653428, 6); Down(10, 73, 24308653428, 208, 0, 137582102670, 4);
    Finish(137582102670, 448, 485, 37);
  }

  lemma Upper11()
    ensures Pow(11, 37) < Pow(2, 128)
  {
    hide Pow;
    Start(11);
    Up(11, 1, 11, 0, 0, 121, 0); Up(11, 2, 121, 0, 0, 14641, 0); Up(11, 4, 14641, 0, 1, 2357947691, 0);
    Up(11, 9, 2357947691, 0, 0, 331396896452, 3); Up(11, 18, 331396896452, 24, 1, 1098726836752, 5);
    Finish(1098726836752, 88, 128, 40);
  }

  lemma Lower11()
    ensures Pow(11, 283) > Pow(2, 979)
  {
    hide Pow;
    Start(11);
    Down(11, 1, 11, 0, 0, 121, 0); Down(11, 2, 121, 0, 0, 14641, 0); Down(11, 4, 14641, 0, 0, 214358881, 0);
    Down(11, 8, 214358881, 0, 1, 30126990586, 3); Down(11, 17, 30126990586, 24, 1, 9080387080, 5);
    Down(11, 35, 9080387080, 88, 0, 19197685067, 4); Down(11, 70, 19197685067, 208, 1, 943909918714, 4);
    Down(11, 141, 943909918714, 448, 1, 34818815497, 6); Finish(34818815497, 944, 979, 35);
  }

  lemma Upper12()
    ensures Pow(12, 306) < Pow(2, 1097)
  {
    hide Pow;
    Start(12);
    Up(12, 1, 12, 0, 0, 144, 0); Up(12, 2, 144, 0, 0, 20736, 0); Up(12, 4, 20736, 0, 1, 5159780352, 0);
    Up(12, 9, 5159780352, 0, 1, 74384733888, 4); Up(12, 19, 74384733888, 32, 0, 5032314799, 5);
    Up(12, 38, 5032314799, 104, 0, 5896247979, 4); Up(12, 76, 5896247979, 240, 1, 97134356098, 4);
    Up(12, 153, 97134356098, 512, 0, 8581158122, 5); Finish(8581158122, 1064, 1097, 33);
  }

  lemma Lower12()
    ensures Pow(12, 53) > Pow(2, 190)
  {
    hide Pow;
    Start(12);
    Down(12, 1, 12, 0, 1, 1728, 0); Down(12, 3, 1728, 0, 0, 2985984, 0); Down(12, 6, 2985984, 0, 1, 417942208512, 1);
    Down(12, 13, 417942208512, 8, 0, 158866614270, 5); Down(12, 26, 158866614270, 56, 1, 275452488090, 5);
    Finish(275452488090, 152, 190, 38);
  }

  lemma Upper13()
    ensures Pow(13, 227) < Pow(2, 840)
  {
    hide Pow;
    Start(13);
    Up(13, 1, 13, 0, 1, 2197, 0); Up(13, 3, 2197, 0, 1, 62748517, 0); Up(13, 7, 62748517, 0, 0, 60079595730, 2);
    Up(13, 14, 60079595730, 16, 0, 840415671254, 4); Up(13, 28, 840415671254, 64, 0, 642374744066, 5);
    Up(13, 56, 642374744066, 168, 1, 19058138370, 6); Up(13, 113, 19058138370, 384, 1, 1099371420148, 4);
    Finish(1099371420148, 800, 840, 40);
  }

  lemma Lower13()
    ensures Pow(13, 237) > Pow(2, 877)
  {
    hide Pow;
    Start(13);
    Down(13, 1, 13, 0, 1, 2197, 0); Down(13, 3, 2197, 0, 1, 62748517, 0); Down(13, 7, 62748517, 0, 0, 60079595729, 2);
    Down(13, 14, 60079595729, 16, 1, 42677358304, 5); Down(13, 29, 42677358304, 72, 1, 21534687997, 5);
    Down(13, 59, 21534687997, 184, 0, 107973531616, 4); Down(13, 118, 107973531616, 400, 1, 137840912325, 5);
    Finish(137840912325, 840, 877, 37);
  }

  lemma Upper14()
    ensures Pow(14, 244) < Pow(2, 929)
  {
    hide Pow;
    Start(14);
    Up(14, 1, 14, 0, 1, 2744, 0); Up(14, 3, 2744, 0, 1, 105413504, 0); Up(14, 7, 105413504, 0, 1, 9272581075, 3);
    Up(14, 15, 9272581075, 24, 0, 20018955645, 4); Up(14, 30, 20018955645, 80, 1, 5102829338, 5);
    Up(14, 61, 5102829338, 200, 0, 6062646223, 4); Up(14, 122, 6062646223, 432, 0, 8557848452, 4);
    Finish(8557848452, 896, 929, 33);
  }

  lemma Lower14()
    ensures Pow(14, 109) > Pow(2, 415)
  {
    hide Pow;
    Start(14);
    Down(14, 1, 14, 0, 1, 2744, 0); Down(14, 3, 2744, 0, 0, 7529536, 0); Down(14, 6, 7529536, 0, 1, 12111126300, 2);
    Down(14, 13, 12111126300, 16, 1, 478120363215, 4); Down(14, 27, 478120363215, 64, 0, 207909653655, 5);
    Down(14, 54, 207909653655, 168, 1, 550398851520, 5); Finish(550398851520, 376, 415, 39);
  }

  lemma Upper15()
    ensures Pow(15, 43) < Pow(2, 168)
  {
    hide Pow;
    Start(15);
    Up(15, 1, 15, 0, 0, 225, 0); Up(15, 2, 225, 0, 1, 759375, 0); Up(15, 5, 759375, 0, 0, 576650390625, 0);
    Up(15, 10, 576650390625, 0, 1, 17720527606, 6); Up(15, 21, 17720527606, 48, 1, 1096692047903, 4);
    Finish(1096692047903, 128, 168, 40);
  }

  lemma Lower15()
    ensures Pow(15, 247) > Pow(2, 965)
  {
    hide Pow;
    Start(15);
    Down(15, 1, 15, 0, 1, 3375, 0); Down(15, 3, 3375, 0, 1, 170859375, 0);
    Down(15, 7, 170859375, 0, 1, 26100509785, 3); Down(15, 15, 26100509785, 24, 0, 158612758628, 4);
    Down(15, 30, 158612758628, 80, 1, 343216113827, 5); Down(15, 61, 343216113827, 200, 1, 6277501227, 6);
    Down(15, 123, 6277501227, 448, 1, 137627433246, 4); Finish(137627433246, 928, 965, 37);
  }

  lemma Upper17()
    ensures Pow(17, 80) < Pow(2, 327)
  {
    hide Pow;
    Start(17);
    Up(17, 1, 17, 0, 0, 289, 0); Up(17, 2, 289, 0, 1, 1419857, 0); Up(17, 5, 1419857, 0, 0, 7874976174, 1);
    Up(17, 10, 7874976174, 8, 0, 14439050514, 4); Up(17, 20, 14439050514, 48, 0, 48541971424, 4);
    Up(17, 40, 48541971424, 128, 0, 548624198355, 4); Finish(548624198355, 288, 327, 39);
  }

  lemma Lower17()
    ensures Pow(17, 263) > Pow(2, 1075)
  {
    hide Pow;
    Start(17);
    Down(17, 1, 17, 0, 0, 289, 0); Down(17, 2, 289, 0, 0, 83521, 0); Down(17, 4, 83521, 0, 0, 6975757441, 0);
    Down(17, 8, 6975757441, 0, 0, 11329816625, 4); Down(17, 16, 11329816625, 32, 0, 29887246144, 4);
    Down(17, 32, 29887246144, 96, 1, 13810865489, 5); Down(17, 65, 13810865489, 232, 1, 754972010487, 4);
    Down(17, 131, 754972010487, 496, 1, 34424752906, 6); Finish(34424752906, 1040, 1075, 35);
  }

  lemma Upper18()
    ensures Pow(18, 153) < Pow(2, 638)
  {
    hide Pow;
    Start(18);
    Up(18, 1, 18, 0, 0, 324, 0); Up(18, 2, 324, 0, 0, 104976, 0); Up(18, 4, 104976, 0, 1, 198359290368, 0);
    Up(18, 9, 198359290368, 0, 1, 644136294209, 5); Up(18, 19, 644136294209, 40, 0, 377359870543, 5);
    Up(18, 38, 377359870543, 120, 0, 129512474720, 5); Up(18, 76, 129512474720, 280, 1, 274597059566, 5);
    Finish(274597059566, 600, 638, 38);
  }

  lemma Lower18()
    ensures Pow(18, 206) > Pow(2, 859)
  {
    hide Pow;
    Start(18);
    Down(18, 1, 18, 0, 1, 5832, 0); Down(18, 3, 5832, 0, 0, 34012224, 0); Down(18, 6, 34012224, 0, 0, 17651846030, 2);
    Down(18, 12, 17651846030, 16, 1, 5100972001, 5); Down(18, 25, 5100972001, 72, 1, 109048205518, 4);
    Down(18, 51, 109048205518, 176, 1, 194674794584, 5); Down(18, 103, 194674794584, 392, 0, 34468280906, 5);
    Finish(34468280906, 824, 859, 35);
  }

  lemma Upper19()
    ensures Pow(19, 121) < Pow(2, 514)
  {
    hide Pow;
    Start(19);
    Up(19, 1, 19, 0, 1, 6859, 0); Up(19, 3, 6859, 0, 1, 893871739, 0); Up(19, 7, 893871739, 0, 1, 904865683906, 3);
    Up(19, 15, 904865683906, 24, 0, 744677805334, 5); Up(19, 30, 744677805334, 88, 0, 504355770097, 5);
    Up(19, 60, 504355770097, 216, 1, 17170691940, 6); Finish(17170691940, 480, 514, 34);
  }

  lemma Lower19()
    ensures Pow(19, 238) > Pow(2, 1011)
  {
    hide Pow;
    Start(19);
    Down(19, 1, 19, 0, 1, 6859, 0); Down(19, 3, 6859, 0, 1, 893871739, 0);
    Down(19, 7, 893871739, 0, 0, 47624509679, 3); Down(19, 14, 47624509679, 24, 1, 39193568701, 5);
    Down(19, 29, 39193568701, 88, 1, 26545040530, 5); Down(19, 59, 26545040530, 216, 1, 12176446360, 5);
    Down(19, 119, 12176446360, 472, 0, 34520832346, 4); Finish(34520832346, 976, 1011, 35);
  }

  lemma Upper20()
    ensures Pow(20, 205) < Pow(2, 886)
  {
    hide Pow;
    Start(20);
    Up(20, 1, 20, 0, 1, 8000, 0); Up(20, 3, 8000, 0, 0, 64000000, 0); Up(20, 6, 64000000, 0, 0, 62500000000, 2);
    Up(20, 12, 62500000000, 16, 1, 71054273577, 5); Up(20, 25, 71054273577, 72, 1, 91835496161, 5);
    Up(20, 51, 91835496161, 184, 0, 7670458541, 5); Up(20, 102, 7670458541, 408, 1, 273976168732, 4);
    Finish(273976168732, 848, 886, 38);
  }

  lemma Lower20()
    ensures Pow(20, 146) > Pow(2, 631)
  {
    hide Pow;
    Start(20);
    Down(20, 1, 20, 0, 0, 400, 0); Down(20, 2, 400, 0, 0, 160000, 0); Down(20, 4, 160000, 0, 1, 512000000000, 0);
    Down(20, 9, 512000000000, 0, 0, 238418579101, 5); Down(20, 18, 238418579101, 40, 0, 51698788284, 5);
    Down(20, 36, 51698788284, 120, 1, 48617306857, 5); Down(20, 73, 48617306857, 280, 0, 550328410702, 4);
    Finish(550328410702, 592, 631, 39);
  }

  lemma Upper21()
    ensures Pow(21, 209) < Pow(2, 918)
  {
    hide Pow;
    Start(21);
    Up(21, 1, 21, 0, 1, 9261, 0); Up(21, 3, 9261, 0, 0, 85766121, 0); Up(21, 6, 85766121, 0, 1, 9207271203, 3);
    Up(21, 13, 9207271203, 24, 0, 19737948433, 4); Up(21, 26, 19737948433, 80, 0, 90707700780, 4);
    Up(21, 52, 90707700780, 192, 0, 7483219616, 5); Up(21, 104, 7483219616, 424, 1, 273801873496, 4);
    Finish(273801873496, 880, 918, 38);
  }

  lemma Lower21()
    ensures Pow(21, 130) > Pow(2, 571)
  {
    hide Pow;
    Start(21);
    Down(21, 1, 21, 0, 0, 441, 0); Down(21, 2, 441, 0, 0, 194481, 0); Down(21, 4, 194481, 0, 0, 37822859361, 0);
    Down(21, 8, 37822859361, 0, 0, 333080228940, 4); Down(21, 16, 333080228940, 32, 0, 100901560391, 5);
    Down(21, 32, 100901560391, 104, 1, 194453262043, 5); Down(21, 65, 194453262043, 248, 0, 34389878345, 5);
    Finish(34389878345, 536, 571, 35);
  }

  lemma Upper22()
    ensures Pow(22, 37) < Pow(2, 165)
  {
    hide Pow;
    Start(22);
    Up(22, 1, 22, 0, 0, 484, 0); Up(22, 2, 484, 0, 0, 234256, 0); Up(22, 4, 234256, 0, 1, 4715895382, 1);
    Up(22, 9, 4715895382, 8, 0, 5178076508, 4); Up(22, 18, 5178076508, 48, 1, 137340854644, 4);
    Finish(137340854644, 128, 165, 37);
  }

  lemma Lower22()
    ensures Pow(22, 246) > Pow(2, 1097)
  {
    hide Pow;
    Start(22);
    Down(22, 1, 22, 0, 1, 10648, 0); Down(22, 3, 10648, 0, 1, 2494357888, 0);
    Down(22, 7, 2494357888, 0, 1, 31869874339, 4); Down(22, 15, 31869874339, 32, 0, 236483498100, 4);
    Down(22, 30, 236483498100, 96, 1, 4371037886, 6); Down(22, 61, 4371037886, 240, 1, 97866027713, 4);
    Down(22, 123, 97866027713, 512, 0, 8710921411, 5); Finish(8710921411, 1064, 1097, 33);
  }

  lemma Upper23()
    ensures Pow(23, 212) < Pow(2, 959)
  {
    hide Pow;
    Start(23);
    Up(23, 1, 23, 0, 1, 12167, 0); Up(23, 3, 12167, 0, 0, 148035889, 0); Up(23, 6, 148035889, 0, 1, 30042908308, 3);
    Up(23, 13, 30042908308, 24, 0, 210147430097, 4); Up(23, 26, 210147430097, 80, 1, 923796210061, 5);
    Up(23, 53, 923796210061, 200, 0, 776162267106, 5); Up(23, 106, 776162267106, 440, 0, 547904951308, 5);
    Finish(547904951308, 920, 959, 39);
  }

  lemma Lower23()
    ensures Pow(23, 191) > Pow(2, 864)
  {
    hide Pow;
    Start(23);
    Down(23, 1, 23, 0, 0, 529, 0); Down(23, 2, 529, 0, 1, 6436343, 0); Down(23, 5, 6436343, 0, 1, 14538723112, 2);
    Down(23, 11, 14538723112, 16, 1, 4421611087, 5); Down(23, 23, 4421611087, 72, 1, 104695750844, 4);
    Down(23, 47, 104695750844, 176, 1, 229290531597, 5); Down(23, 95, 229290531597, 392, 1, 4295960569, 6);
    Finish(4295960569, 832, 864, 32);
  }

  lemma Upper24()
    ensures Pow(24, 200) < Pow(2, 917)
  {
    hide Pow;
    Start(24);
    Up(24, 1, 24, 0, 1, 13824, 0); Up(24, 3, 13824, 0, 0, 191102976, 0); Up(24, 6, 191102976, 0, 0, 557256278016, 2);
    Up(24, 12, 557256278016, 16, 1, 26477769046, 6); Up(24, 25, 26477769046, 80, 0, 163231104066, 4);
    Up(24, 50, 163231104066, 192, 0, 24232934570, 5); Up(24, 100, 24232934570, 424, 0, 136726330471, 4);
    Finish(136726330471, 880, 917, 37);
  }

  lemma Lower24()
    ensures Pow(24, 53) > Pow(2, 243)
  {
    hide Pow;
    Start(24);
    Down(24, 1, 24, 0, 1, 13824, 0); Down(24, 3, 13824, 0, 0, 191102976, 0);
    Down(24, 6, 191102976, 0, 1, 52242776064, 3); Down(24, 13, 52242776064, 24, 0, 635466457082, 4);
    Down(24, 26, 635466457082, 80, 1, 34431561011, 6); Finish(34431561011, 208, 243, 35);
  }

  lemma Upper25()
    ensures Pow(25, 205) < Pow(2, 952)
  {
    hide Pow;
    Start(25);
    Up(25, 1, 25, 0, 1, 15625, 0); Up(25, 3, 15625, 0, 0, 244140625, 0); Up(25, 6, 244140625, 0, 0, 909494701773, 2);
    Up(25, 12, 909494701773, 16, 1, 73468396927, 6); Up(25, 25, 73468396927, 80, 1, 122727336635, 5);
    Up(25, 51, 122727336635, 200, 0, 13698808432, 5); Up(25, 102, 13698808432, 440, 1, 1092309553972, 4);
    Finish(1092309553972, 912, 952, 40);
  }

  lemma Lower25()
    ensures Pow(25, 73) > Pow(2, 339)
  {
    hide Pow;
    Start(25);
    Down(25, 1, 25, 0, 0, 625, 0); Down(25, 2, 625, 0, 0, 390625, 0); Down(25, 4, 390625, 0, 1, 14901161193, 1);
    Down(25, 9, 14901161193, 8, 0, 51698788278, 4); Down(25, 18, 51698788278, 48, 0, 622301527628, 4);
    Down(25, 36, 622301527628, 128, 1, 34395525653, 6); Finish(34395525653, 304, 339, 35);
  }

  lemma Upper26()
    ensures Pow(26, 227) < Pow(2, 1067)
  {
    hide Pow;
    Start(26);
    Up(26, 1, 26, 0, 1, 17576, 0); Up(26, 3, 17576, 0, 1, 8031810176, 0); Up(26, 7, 8031810176, 0, 0, 15019898933, 4);
    Up(26, 14, 15019898933, 32, 0, 52525979457, 4); Up(26, 28, 52525979457, 96, 0, 642374744154, 4);
    Up(26, 56, 642374744154, 224, 1, 38116276749, 6); Up(26, 113, 38116276749, 496, 1, 34355356896, 5);
    Finish(34355356896, 1032, 1067, 35);
  }

  lemma Lower26()
    ensures Pow(26, 10) > Pow(2, 47)
  {
    hide Pow;
    Start(26);
    Down(26, 1, 26, 0, 0, 676, 0); Down(26, 2, 676, 0, 1, 11881376, 0); Down(26, 5, 11881376, 0, 0, 551433967396, 1);
    Finish(551433967396, 8, 47, 39);
  }

  lemma Upper27()
    ensures Pow(27, 102) < Pow(2, 485)
  {
    hide Pow;
    Start(27);
    Up(27, 1, 27, 0, 1, 19683, 0); Up(27, 3, 19683, 0, 0, 387420489, 0); Up(27, 6, 387420489, 0, 0, 8946337420, 3);
    Up(27, 12, 8946337420, 24, 1, 503146494105, 4); Up(27, 25, 503146494105, 80, 1, 24283589015, 6);
    Up(27, 51, 24283589015, 208, 0, 137298529840, 4); Finish(137298529840, 448, 485, 37);
  }

  lemma Lower27()
    ensures Pow(27, 155) > Pow(2, 737)
  {
    hide Pow;
    Start(27);
    Down(27, 1, 27, 0, 0, 729, 0); Down(27, 2, 729, 0, 0, 531441, 0); Down(27, 4, 531441, 0, 1, 29787490175, 1);
    Down(27, 9, 29787490175, 8, 1, 21788722201, 5); Down(27, 19, 21788722201, 56, 0, 110535979073, 4);
    Down(27, 38, 110535979073, 144, 1, 300034546016, 5); Down(27, 77, 300034546016, 328, 1, 8635082614, 6);
    Finish(8635082614, 704, 737, 33);
  }

  lemma Upper28()
    ensures Pow(28, 135) < Pow(2, 649)
  {
    hide Pow;
    Start(28);
    Up(28, 1, 28, 0, 0, 784, 0); Up(28, 2, 784, 0, 0, 614656, 0); Up(28, 4, 614656, 0, 0, 377801998336, 0);
    Up(28, 8, 377801998336, 0, 0, 129816135038, 5); Up(28, 16, 129816135038, 40, 1, 429156361546, 5);
    Up(28, 33, 429156361546, 120, 1, 18321007341, 6); Up(28, 67, 18321007341, 288, 1, 8547850194, 5);
    Finish(8547850194, 616, 649, 33);
  }

  lemma Lower28()
    ensures Pow(28, 109) > Pow(2, 524)
  {
    hide Pow;
    Start(28);
    Down(28, 1, 28, 0, 1, 21952, 0); Down(28, 3, 21952, 0, 0, 481890304, 0);
    Down(28, 6, 481890304, 0, 1, 387556041628, 3); Down(28, 13, 387556041628, 24, 1, 14941261352, 6);
    Down(28, 27, 14941261352, 96, 0, 51977413424, 4); Down(28, 54, 51977413424, 224, 1, 68799856467, 5);
    Finish(68799856467, 488, 524, 36);
  }

  lemma Upper29()
    ensures Pow(29, 169) < Pow(2, 821)
  {
    hide Pow;
    Start(29);
    Up(29, 1, 29, 0, 0, 841, 0); Up(29, 2, 841, 0, 1, 20511149, 0); Up(29, 5, 20511149, 0, 0, 6419482930, 2);
    Up(29, 10, 6419482930, 16, 1, 278251960774, 4); Up(29, 21, 278251960774, 64, 0, 70416857557, 5);
    Up(29, 42, 70416857557, 168, 0, 4509760246, 5); Up(29, 84, 4509760246, 376, 1, 137323557124, 4);
    Finish(137323557124, 784, 821, 37);
  }

  lemma Lower29()
    ensures Pow(29, 176) > Pow(2, 855)
  {
    hide Pow;
    Start(29);
    Down(29, 1, 29, 0, 0, 841, 0); Down(29, 2, 841, 0, 1, 20511149, 0); Down(29, 5, 20511149, 0, 1, 186165004969, 2);
    Down(29, 11, 186165004969, 16, 0, 31520729930, 5); Down(29, 22, 31520729930, 72, 0, 231330379685, 4);
    Down(29, 44, 231330379685, 176, 0, 48670467154, 5); Down(29, 88, 48670467154, 392, 0, 551532575159, 4);
    Finish(551532575159, 816, 855, 39);
  }

  lemma Upper30()
    ensures Pow(30, 43) < Pow(2, 211)
  {
    hide Pow;
    Start(30);
    Up(30, 1, 30, 0, 0, 900, 0); Up(30, 2, 900, 0, 1, 24300000, 0); Up(30, 5, 24300000, 0, 0, 9010162354, 2);
    Up(30, 10, 9010162354, 16, 1, 567056883444, 4); Up(30, 21, 567056883444, 64, 1, 34271626504, 6);
    Finish(34271626504, 176, 211, 35);
  }

  lemma Lower30()
    ensures Pow(30, 204) > Pow(2, 1001)
  {
    hide Pow;
    Start(30);
    Down(30, 1, 30, 0, 1, 27000, 0); Down(30, 3, 27000, 0, 0, 729000000, 0);
    Down(30, 6, 729000000, 0, 0, 31676352024, 3); Down(30, 12, 31676352024, 24, 1, 27377371522, 5);
    Down(30, 25, 27377371522, 88, 1, 20450546929, 5); Down(30, 51, 20450546929, 216, 0, 97375565603, 4);
    Down(30, 102, 97375565603, 464, 0, 8623829468, 5); Finish(8623829468, 968, 1001, 33);
  }

  lemma Upper31()
    ensures Pow(31, 131) < Pow(2, 649)
  {
    hide Pow;
    Start(31);
    Up(31, 1, 31, 0, 0, 961, 0); Up(31, 2, 961, 0, 0, 923521, 0); Up(31, 4, 923521, 0, 0, 852891037441, 0);
    Up(31, 8, 852891037441, 0, 0, 661587475177, 5); Up(31, 16, 661587475177, 40, 0, 398084000437, 5);
    Up(31, 32, 398084000437, 120, 1, 17453050609, 6); Up(31, 65, 17453050609, 288, 1, 8588247731, 5);
    Finish(8588247731, 616, 649, 33);
  }

  lemma Lower31()
    ensures Pow(31, 109) > Pow(2, 540)
  {
    hide Pow;
    Start(31);
    Down(31, 1, 31, 0, 1, 29791, 0); Down(31, 3, 29791, 0, 0, 887503681, 0);
    Down(31, 6, 887503681, 0, 1, 5685153020, 4); Down(31, 13, 5685153020, 32, 1, 233284642613, 4);
    Down(31, 27, 233284642613, 96, 0, 49496270075, 5); Down(31, 54, 49496270075, 232, 1, 69072760462, 5);
    Finish(69072760462, 504, 540, 36);
  }

  lemma Upper33()
    ensures Pow(33, 45) < Pow(2, 227)
  {
    hide Pow;
    Start(33);
    Up(33, 1, 33, 0, 0, 1089, 0); Up(33, 2, 1089, 0, 1, 39135393, 0); Up(33, 5, 39135393, 0, 1, 771211342068, 2);
    Up(33, 11, 771211342068, 16, 0, 540937375385, 5); Up(33, 22, 540937375385, 72, 1, 34305845471, 6);
    Finish(34305845471, 192, 227, 35);
  }

  lemma Lower33()
    ensures Pow(33, 203) > Pow(2, 1024)
  {
    hide Pow;
    Start(33);
    Down(33, 1, 33, 0, 1, 35937, 0); Down(33, 3, 35937, 0, 0, 1291467969, 0);
    Down(33, 6, 1291467969, 0, 0, 99413962063, 3); Down(33, 12, 99413962063, 24, 1, 296625769943, 5);
    Down(33, 25, 296625769943, 88, 0, 80023571530, 5); Down(33, 50, 80023571530, 216, 1, 192198491289, 5);
    Down(33, 101, 192198491289, 472, 1, 4330859517, 6); Finish(4330859517, 992, 1024, 32);
  }

  lemma Upper34()
    ensures Pow(34, 80) < Pow(2, 407)
  {
    hide Pow;
    Start(34);
    Up(34, 1, 34, 0, 0, 1156, 0); Up(34, 2, 1156, 0, 1, 45435424, 0); Up(34, 5, 45435424, 0, 0, 31499904695, 2);
    Up(34, 10, 31499904695, 16, 0, 231024808203, 4); Up(34, 20, 231024808203, 64, 0, 48541971415, 5);
    Up(34, 40, 48541971415, 168, 0, 548624198152, 4); Finish(548624198152, 368, 407, 39);
  }

  lemma Lower34()
    ensures Pow(34, 183) > Pow(2, 931)
  {
    hide Pow;
    Start(34);
    Down(34, 1, 34, 0, 0, 1156, 0); Down(34, 2, 1156, 0, 1, 45435424, 0);
    Down(34, 5, 45435424, 0, 1, 1070996759613, 2); Down(34, 11, 1070996759613, 16, 0, 1043221399505, 5);
    Down(34, 22, 1043221399505, 72, 1, 131459537318, 6); Down(34, 45, 131459537318, 192, 1, 534396111437, 5);
    Down(34, 91, 534396111437, 424, 1, 34495758900, 6); Finish(34495758900, 896, 931, 35);
  }

  lemma Upper35()
    ensures Pow(35, 116) < Pow(2, 595)
  {
    hide Pow;
    Start(35);
    Up(35, 1, 35, 0, 1, 42875, 0); Up(35, 3, 42875, 0, 1, 64339296875, 0);
    Up(35, 7, 64339296875, 0, 0, 963812955276, 4); Up(35, 14, 963812955276, 32, 1, 115508454167, 6);
    Up(35, 29, 115508454167, 112, 0, 12134662924, 5); Up(35, 58, 12134662924, 264, 0, 34284322588, 4);
    Finish(34284322588, 560, 595, 35);
  }

  lemma Lower35()
    ensures Pow(35, 147) > Pow(2, 754)
  {
    hide Pow;
    Start(35);
    Down(35, 1, 35, 0, 0, 1225, 0); Down(35, 2, 1225, 0, 0, 1500625, 0); Down(35, 4, 1500625, 0, 1, 307873588562, 1);
    Down(35, 9, 307873588562, 8, 0, 86207498074, 5); Down(35, 18, 86207498074, 56, 0, 6759121537, 5);
    Down(35, 36, 6759121537, 152, 1, 372296277973, 4); Down(35, 73, 372296277973, 336, 1, 17234775920, 6);
    Finish(17234775920, 720, 754, 34);
  }

  lemma Upper36()
    ensures Pow(36, 153) < Pow(2, 791)
  {
    hide Pow;
    Start(36);
    Up(36, 1, 36, 0, 0, 1296, 0); Up(36, 2, 1296, 0, 0, 1679616, 0); Up(36, 4, 1679616, 0, 1, 396718580736, 1);
    Up(36, 9, 396718580736, 8, 1, 20129259195, 6); Up(36, 19, 20129259195, 64, 0, 94339967645, 4);
    Up(36, 38, 94339967645, 160, 0, 8094529672, 5); Up(36, 76, 8094529672, 360, 1, 549194119404, 4);
    Finish(549194119404, 752, 791, 39);
  }

  lemma Lower36()
    ensures Pow(36, 206) > Pow(2, 1065)
  {
    hide Pow;
    Start(36);
    Down(36, 1, 36, 0, 1, 46656, 0); Down(36, 3, 46656, 0, 0, 2176782336, 0);
    Down(36, 6, 2176782336, 0, 0, 282429536481, 3); Down(36, 12, 282429536481, 24, 1, 10201944003, 6);
    Down(36, 25, 10201944003, 96, 1, 872385644319, 4); Down(36, 51, 872385644319, 224, 1, 97337397331, 6);
    Down(36, 103, 97337397331, 496, 0, 8617070233, 5); Finish(8617070233, 1032, 1065, 33);
  }

  lemma PowersTable(r: nat)
    requires NeedsBracket(r)
    ensures Pow(r, LogBracket(r).p1) < Pow(2, LogBracket(r).q1)
    ensures Pow(r, LogBracket(r).p2) > Pow(2, LogBracket(r).q2)
  {
    hide Pow;
    match r
    case 3 => Upper3(); Lower3();
    case 5 => Upper5(); Lower5();
    case 6 => Upper6(); Lower6();
    case 7 => Upper7(); Lower7();
    case 9 => Upper9(); Lower9();
    case 10 => Upper10(); Lower10();
    case 11 => Upper11(); Lower11();
    case 12 => Upper12(); Lower12();
    case 13 => Upper13(); Lower13();
    case 14 => Upper14(); Lower14();
    case 15 => Upper15(); Lower15();
    case 17 => Upper17(); Lower17();
    case 18 => Upper18(); Lower18();
    case 19 => Upper19(); Lower19();
    case 20 => Upper20(); Lower20();
    case 21 => Upper21(); Lower21();
    case 22 => Upper22(); Lower22();
    case 23 => Upper23(); Lower23();
    case 24 => Upper24(); Lower24();
    case 25 => Upper25(); Lower25();
    case 26 => Upper26(); Lower26();
    case 27 => Upper27(); Lower27();
    case 28 => Upper28(); Lower28();
    case 29 => Upper29(); Lower29();
    case 30 => Upper30(); Lower30();
    case 31 => Upper31(); Lower31();
    case 33 => Upper33(); Lower33();
    case 34 => Upper34(); Lower34();
    case 35 => Upper35(); Lower35();
    case _ => Upper36(); Lower36();
  }

  lemma Rows6()
    ensures RowsOk(6, 2)
  {}

  lemma Rows11()
    ensures RowsOk(11, 7)
  {}

  lemma Rows16()
    ensures RowsOk(16, 12)
  {}

  lemma Rows21()
    ensures RowsOk(21, 17)
  {}

  lemma Rows26()
    ensures RowsOk(26, 22)
  {}

  lemma Rows31()
    ensures RowsOk(31, 27)
  {}

  lemma Rows36()
    ensures RowsOk(36, 32)
  {}

  lemma LogTable(r: nat)
    requires NeedsBracket(r)
    ensures RowOk(LogMultiplier(r), MaxExponent(r), MinExponentNeg(r), AtodMaxDigits(r), LogBracket(r))
    ensures Pow(r, LogBracket(r).p1) < Pow(2, LogBracket(r).q1)
    ensures Pow(r, LogBracket(r).p2) > Pow(2, LogBracket(r).q2)
  {
    hide Pow, RowOk, RowsOk, LogBracket, LogMultiplier, MaxExponent, MinExponentNeg, AtodMaxDigits;
    PowersTable(r);
    if r <= 6 {
      Rows6();
      RowsPick(r, 6, 2);
    } else if r <= 11 {
      Rows11();
      RowsPick(r, 11, 7);
    } else if r <= 16 {
      Rows16();
      RowsPick(r, 16, 12);
    } else if r <= 21 {
      Rows21();
      RowsPick(r, 21, 17);
    } else if r <= 26 {
      Rows26();
      RowsPick(r, 26, 22);
    } else if r <= 31 {
      Rows31();
      RowsPick(r, 31, 27);
    } else {
      Rows36();
      RowsPick(r, 36, 32);
    }
  }
}
