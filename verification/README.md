# A verified model of dynajs number text, sorting, text codecs and reactors

This project models three parts of dynajs in Dafny and proves what they promise.

**Number text** (`src/dtoa.c`): the multi-limb integer package, correctly rounded scaling by powers of the radix, the
free format of `js_dtoa` with its 128-bit fast path and its power-of-two search, and the reader `js_atod` with its two
fast paths. The standard behind it is ECMA-262, sections 6.1.6.1.20 (Number::toString) and 7.1.4.1.3 (RoundMVResult).
A double is a pair `(m, e)` with value `m * 2^(e-53)`; what is rounded is a real number, defined without reference to
the code. The main results are `Dtoa.RoundTrip` (reading undoes printing, bit for bit), `Atod.Read` (the nearest
double of every literal), `Dtoa.Print` (in decimal Number::toString itself), `Dtoa.FreeFormat` (fewest and closest
digits), `Grisu.ShortestFast` (the fast path equals the exact loop, and answers but for near ties) and
`RoundedScaling.MulPowRound` and `MulPowRoundToD` (exact rounding). What is read is told by the parts a text is put
together from, in `LiteralLaws`.

**Sorting, UTF-8 and half floats** (`src/cutils.c`, `src/cutils.h`): `rqsort` with its three-way partition, 50-entry
stack, heapsort cut-over and insertion-sort tail; the six-byte UTF-8 form of section 2 of RFC 2279; binary16 rounding
as in section 4.3.1 of IEEE 754-2019. The main results are `Sort.Sorter.Rqsort`, `Utf8.StreamDecodes` and
`StreamCanonical`, and `Half.HalfNearest` and `HalfRoundTrip`.

**The reactors** (`src/dyna-aio-uring.c`, `src/dyna-aio.c`): the write and receive side of the io_uring backend and the
write side of the readiness backend, as objects changed by calls, by a kernel that answers as it likes, by completions
and by close. A callback may call back in, so what follows a callback is a step of its own. The main results are
`UringWrite.WriteSide.Run`, `UringRecv.Receiver.Run`, `UringReap.Reap` and `Reactor.Writer.Run`.

## Layout

| files | part |
|---|---|
| `Powers`, `Rounding`, `StickyRounding`, `Doubles`, `Nearest`, `DoubleBits`, `Hardware` | powers, rounding, doubles as reals and as bit patterns |
| `Limbs`, `Mpb`, `Scaling`, `RoundedScaling` | limb arithmetic, the scratch number, scaling and rounding |
| `Tables`, `LogTables`, `Estimates` | the constant tables of `src/dtoa.c` and what they guarantee |
| `Shortest`, `FreeLoop`, `PowTwo`, `PowerDigits`, `Grisu`, `DigitText`, `Layout`, `LayoutReads`, `NumberText`, `Dtoa` | the printer |
| `Literal`, `LiteralLaws`, `DigitReader`, `LiteralValue`, `LongLiterals`, `Conversion`, `Atod` | the reader |
| `Permutation`, `SortOrder`, `Pending`, `Sort` | the sort |
| `Utf8`, `Half` | the codecs |
| `Wire`, `Attempts`, `UringWrite`, `UringRecv`, `UringReap`, `Reactor` | the reactors |

## What the proofs found

- The exact loop of `js_dtoa` gives the fewest digits for every double if and only if the radix is a power of two
  (`PowerDigits.LoopShortest`); in each other radix a power of two is named that gets more digits than it takes. In
  decimal the separate search makes up for it, except when exponents are disabled, where the code does not call it
  (`Dtoa.PrintsTooLong`). The digits read back in every case.
- A completion callback of the io_uring backend gets its byte count as an int. `UringWrite.Int32Exact` and
  `Int32Wraps`: it is the count exactly below 2^31, although lengths up to 2^32 - 1 are accepted.
- On the io_uring backend a send that goes out directly in part reports only the rest: its length is reported exactly
  when none or all of it went out during the call, in particular whenever `dyn_aio_queued` was not 0 before it
  (`UringWrite.ReportsLength`, `ShortReport`). The readiness backend reports the full length.
- On the readiness backend a file request of length 0 behind an active buffer never gets its callback and never gives
  back its share of `inflight`, and closing makes no callback for a pending file. Every other accepted file request
  gets exactly one (`Reactor.Writer.FileCalledBack`, `Run`; `Reactor.LostAtCall`, `LostAtClose`).
- On the readiness backend a file goes out before the first queued buffer that still carries a mark for an earlier
  file. It keeps call order if there is none, and otherwise exactly if its bytes commute with those it overtakes
  (`Reactor.Writer.StartFile`; `Reactor.Overtaking` is a run that leaves call order).
- In a radix that is no power of two `js_atod` drops digits past `atod_max_digits`. It still returns the double nearest
  to the whole literal if and only if they do not take the number past the upper end of the double it returns
  (`LongLiterals.NearestToWhole`; `OneDigitTooMany` is a decimal literal of 39 digits where they do).
- A NaN does not survive printing and reading above radix 23, where the letters of its text are digits
  (`Dtoa.RoundTrip`, `NaNText`).
- `js_atod` stops reading an exponent once it leaves the 32-bit range and answers from its sign alone. That agrees
  with the value of the literal when the literal is shorter than 2^30 characters, or 2^28 with a binary exponent
  (`Atod.FitsCounters`); the length only matters for such exponents.

## Model

| member | source | states |
|---|---|---|
| `Limbs.AddUi` | src/dtoa.c:57-71 | adding a limb leaves the number plus the limb, the carry out being the next limb |
| `Limbs.Mul1` | src/dtoa.c:73-85 | the new limbs and the carry are the old number times a limb, plus a limb; also in place |
| `Limbs.ReciprocalOf` | src/dtoa.c:87-93 | the precomputed reciprocal v of a normalised d satisfies (B+v)d < B^2 <= (B+v)d + d, with B = 2^64 |
| `Limbs.UdivNormExact` | src/dtoa.c:95-111 | division by reciprocal, with every wrap-around and mask written out, is exact: for every normalised d and a1 < d, q*d + r = a1*B + a0 and r < d |
| `Limbs.EstimateBound` | src/dtoa.c:95-111 | the quotient estimate of the reciprocal division is right or one too small, for every base |
| `Limbs.Div1` | src/dtoa.c:113-124 | quotient limbs and remainder of a whole number by a limb |
| `Limbs.Shr` | src/dtoa.c:126-140 | shift right inside limbs: the number with the incoming high bits, divided by 2^shift, and the bits shifted out |
| `Limbs.Shl` | src/dtoa.c:142-156 | shift left inside limbs: the number times 2^shift plus the low bits, and the bits shifted out |
| `Limbs.Div1Norm` | src/dtoa.c:158-171 | in place with a normalising shift: the exact quotient and remainder of the whole number by the unshifted divisor |
| `MpbModel.Mpb.Renorm` | src/dtoa.c:186-190 | leading zero limbs are dropped, the number stays |
| `MpbModel.Mpb.SetU64` | src/dtoa.c:414-427 | the number is the word |
| `MpbModel.Mpb.GetU64` | src/dtoa.c:429-440 | the number modulo 2^64 |
| `MpbModel.Mpb.FloorLog2` | src/dtoa.c:442-450 | the bit length less one, -1 for zero |
| `MpbModel.Mpb.GetBit` | src/dtoa.c:299-309 | bit k of the number, 0 above it |
| `MpbModel.Mpb.RoundsUp` | src/dtoa.c:337-369 | the decision to round up is that of the mode on the exact quotient by 2^shift, from the half bit and everything below it |
| `MpbModel.Mpb.ShrRound` | src/dtoa.c:311-394 | a shift by any amount in either direction is the number times or divided by the power of two, rounded in the requested mode |
| `Rounding.NearestEvenUnique` | src/dtoa.c:342-367 | round half to even is the one integer within half of the number, even on a tie |
| `Rounding.NearestIsClosest` | src/dtoa.c:342-367 | no other integer is closer |
| `Rounding.StickySound` | src/dtoa.c:1200-1218 | rounding a quotient whose low bit is set when the remainder is not zero, by at least two more bits, equals rounding the exact quotient, in all three modes |
| `Rounding.DivTwice` | src/dtoa.c:1207-1217 | chained floor divisions are one division; the remainders combine |
| `Scaling.PowUi` | src/dtoa.c:239-266 | the power, by the table of powers of five or by squaring, whenever it fits a limb |
| `Scaling.PowUiInv` | src/dtoa.c:268-291 | the power shifted to its top bit, the shift, and its reciprocal |
| `Scaling.MulPowUp` | src/dtoa.c:1170-1186 | multiplying limb-sized powers one after another gives the number times the whole power |
| `Scaling.MulPowDown` | src/dtoa.c:1202-1218 | dividing by limb-sized powers one after another leaves the floor quotient by the whole power, its low bit set exactly when any division left a remainder |
| `Scaling.MulPow` | src/dtoa.c:1163-1222 | scaling by a power of the radix in either direction: exact upwards, a sticky quotient with the chosen guard bits downwards, with the binary exponent offset it reports |
| `RoundedScaling.MulPowRound` | src/dtoa.c:1224-1232 | exactly m * 2^e * radix^f rounded to an integer in the requested mode, for every m and all signs of e and f that the buffer holds |
| `RoundedScaling.DownRounded` | src/dtoa.c:1187-1232 | at least two bits remain below the rounding position after dividing, so the sticky quotient rounds as the exact value does |
| `RoundedScaling.RoundToD` | src/dtoa.c:1234-1262 | 53 bits, or fewer below exponent -1021 and none far below it, rounded; the carry to 2^53 moves the exponent |
| `RoundedScaling.BitsToDoubleExact` | src/dtoa.c:1234-1262 | what round_to_d computes on bits is the rounding of the real number to a double |
| `RoundedScaling.GuardBits` | src/dtoa.c:1187-1218 | dividing leaves at least 56 bits |
| `RoundedScaling.MulPowRoundToD` | src/dtoa.c:1264-1271 | the double nearest to a * radix^f, ties to even, subnormals and underflow included |
| `StickyRounding.StickyAnyOffset` | src/dtoa.c:1234-1271 | a sticky quotient of at least 56 bits rounds to the double the exact quotient rounds to, at any binary exponent |
| `Nearest.NearestDouble` | src/dtoa.c:1234-1262 | no other double is closer to the real number than the one it is rounded to; a tie goes to the even mantissa |
| `Nearest.ToDoubleCanonical` | src/dtoa.c:1234-1262 | rounding yields zero or a mantissa in [2^52, 2^53), with the low bits clear below the normal range |
| `Nearest.RoundedMono` | src/dtoa.c:1234-1262 | rounding to a double keeps order |
| `Nearest.RoundedConvex` | src/dtoa.c:3454-3496 | the reals that round to one double form a convex set |
| `Nearest.IntervalSymmetric` | src/dtoa.c:3580-3618 | away from powers of two a real rounds to the double exactly when it is within half a unit, the ends counting for even mantissas |
| `Nearest.PowerInterval` | src/dtoa.c:3454-3496 | a real rounds to a power of two exactly when it is at most a quarter unit below or half a unit above, both ends included |
| `DoubleBits.DecodeEncode` | src/dtoa.c:4102-4117 | taking a pattern apart as the printer does undoes putting it together as the reader does |
| `DoubleBits.EncodeDecode` | src/dtoa.c:3511-3552 | every finite pattern is taken apart into zero or a canonical pair, which encodes to that pattern again |
| `DoubleBits.HugeInfinite` | src/dtoa.c:4105-4107 | from 2^1024 on every real rounds to infinity |
| `DoubleBits.TinyZero` | src/dtoa.c:4102-4109 | below 2^-1075 every real rounds to zero |
| `Tables.DigitsTable` | src/dtoa.c:729-842 | digits_per_limb and radix_base: as many digits as fit a limb, the stored base being the power truncated to a limb |
| `Tables.DtoaTable` | src/dtoa.c:883-919 | dtoa_max_digits: the least number of digits with radix^(digits-1) >= 2^53, and radix^digits fits 63 bits, in every radix |
| `Estimates.EstimateExact` | src/dtoa.c:492-505 | the exponent estimate is exact for every radix and every exponent of a double: radix^(E0-1) <= 2^(e-1) < radix^E0 |
| `Estimates.ExponentTables` | src/dtoa.c:959-1033 | max_exponent and min_exponent: the least exponents with 2^1024 <= radix^max and 2^1075 <= radix^-min |
| `Estimates.KeptDigits` | src/dtoa.c:921-957 | atod_max_digits: as many digits as fit 128 bits, in a power-of-two radix as many as fit 64, where they fill 56 |
| `FreeLoop.CandidateDigits` | src/dtoa.c:3587-3595 | the rounded digits at the estimated exponent, or at the next one when they overflow |
| `FreeLoop.DropZeros` | src/dtoa.c:3596-3599 | trailing zero digits are dropped, the value stays |
| `FreeLoop.ReadBack` | src/dtoa.c:3602-3604 | the test whether a candidate reads back as the double |
| `FreeLoop.FreeDigits` | src/dtoa.c:3580-3618 | the loop in its 26-limb scratch number computes the reference definition; its digits read back and are the closest of their length; for a symmetric interval no shorter digits read back |
| `Shortest.FreeShortest` | src/dtoa.c:3580-3618 | the reference definition of the loop: reads back for every double, including the unchecked first candidate; shortest whenever the interval is symmetric, including the stop at the first failure |
| `Shortest.EnoughDigits` | src/dtoa.c:3580-3601 | the first candidate needs no check: with radix^(P-1) >= 2^53 it always reads back |
| `Shortest.CandidateReads` | src/dtoa.c:3602-3614 | if any decimal of at most P digits reads back, the candidate of P digits does, so the first failure may end the loop |
| `Shortest.CandidateClosest` | src/dtoa.c:3587-3595 | no decimal of as many digits is closer than the candidate |
| `Shortest.FreeLeading` | src/dtoa.c:3580-3618 | the digits start with one that is not zero, so the exponent tells the size of the number |
| `PowTwo.ShortestPow2` | src/dtoa.c:3454-3496 | for a normalised power of two the search always succeeds, with at most 17 digits, the fewest that read back, and the closest such |
| `PowTwo.TryCandidate` | src/dtoa.c:3472-3490 | a candidate with its zeros dropped and the carry to 10^P mended keeps its value, and is accepted exactly when it reads back |
| `PowTwo.NeighbourReads` | src/dtoa.c:3465-3470 | if any decimal of P digits reads back, the one just below or just above does |
| `PowTwo.SeventeenSuffice` | src/dtoa.c:3462-3494 | 17 digits always read back |
| `PowerDigits.OneDigit` | src/dtoa.c:3580-3618 | in a power-of-two radix the loop, at its own exponent estimate, writes every power of two with one digit |
| `PowerDigits.ShortCandidateReads` | src/dtoa.c:3586-3614 | if a longer candidate strips to at most q digits and reads back, so does the candidate of q digits, ties included |
| `PowerDigits.FreeLonger` | src/dtoa.c:3586-3614 | once the candidate of q digits does not read back the loop ends with more than q digits |
| `PowerDigits.LoopTooLong` | src/dtoa.c:3580-3618 | in each of the 30 radices that are no power of two the loop writes some power of two with more digits than it takes |
| `PowerDigits.LoopShortest` | src/dtoa.c:3580-3618 | the loop gives the fewest digits for every double if and only if the radix is a power of two |
| `Grisu.MulHiFloor` | src/dtoa.c:3225-3228 | the 128-bit product keeps all but the low bits of the exact one |
| `Grisu.ProductNear` | src/dtoa.c:3225-3228 | with a table entry within 1 unit the product is within a fixed error of the scaled number |
| `Grisu.CmpShrExact` | src/dtoa.c:3230-3240 | comparing with a shifted bound is comparing with its exact quotient |
| `Grisu.VerdictSound` | src/dtoa.c:3242-3249 | a candidate judged inside the interval reads back, one judged outside does not |
| `Grisu.DropIsRound` | src/dtoa.c:3251-3278 | dropping digits from 17 rounds as the exact number does, unless the code reports the tie ambiguous |
| `Grisu.NearestFromProduct` | src/dtoa.c:3311-3326 | the 17 digits taken from the product are the rounded ones when the remainder is not near a half |
| `Grisu.OverflowPersists` | src/dtoa.c:3345-3363 | the exponent found at 17 digits serves every smaller number of digits |
| `Grisu.ScalingBits` | src/dtoa.c:3314-3316 | with normalised table entries the scaling shift is in the range the code accepts, for every double |
| `Grisu.OnScale` | src/dtoa.c:3303-3334 | the table reaches every finite double, and one of the two exponents gives 17 digits |
| `Grisu.DropDoubts` | src/dtoa.c:3251-3278 | a tie is called ambiguous only within 10^-15 of a whole digit |
| `Grisu.VerdictDoubts` | src/dtoa.c:3242-3249 | a candidate is left undecided only when an end of the interval is within 10^-15 of a whole digit |
| `Grisu.ShortestFast` | src/dtoa.c:3280-3385 | whenever the 128-bit path answers, its digits, their number and the exponent are those of the exact loop, given table entries within 1 unit; with normalised entries it declines a finite double only if, at 17 digits, the double is within 10^-15 of a whole or half digit or an end of its interval is within 10^-15 of a whole one |
| `DigitText.DigitsOfNum` | src/dtoa.c:583-608 | the digits written stand for the number, as far as they reach |
| `DigitText.LimbToA` | src/dtoa.c:583-608 | a fixed number of digits of a limb, most significant first |
| `DigitText.BinToA` | src/dtoa.c:566-581 | the same for a power-of-two radix |
| `DigitText.U32toa` | src/dtoa.c:610-632 | a number without leading zeros, written two digits at a time |
| `DigitText.U64toa` | src/dtoa.c:645-673 | the same from pieces of nine digits |
| `DigitText.U64toaRadix` | src/dtoa.c:685-716 | a number without leading zeros in any radix |
| `DigitText.PlainNum` | src/dtoa.c:685-716 | that text stands for the number |
| `DigitText.OutputDigits` | src/dtoa.c:1121-1161 | a fixed number of digits of a multi-limb number, a limb at a time by shifting or dividing, with the point after the first dot digits |
| `Layout.Output` | src/dtoa.c:3654-3687 | the text of digits and exponent: exponent form, leading zeros, or a point among or zeros after the digits; what that text is, is told by MarkLaw, LaidIsEcma and LaidParses without reference to the exponent test |
| `LayoutReads.LaidParses` | src/dtoa.c:3654-3687 | in every radix and layout the text is parsed as exactly the digits, point and exponent it was laid out from, sign included, to its end |
| `LayoutReads.LaidValue` | src/dtoa.c:3654-3687 | the literal so parsed has the value of the digits at their exponent, also after cutting it to the digits the reader keeps |
| `NumberText.MarkLaw` | src/dtoa.c:3654-3687 | told by the number the text stands for: with exponents enabled there is always an exponent mark, disabled never, and in the automatic mode if and only if the number is below radix^-6 or at least radix^(dtoa_max_digits + 4) |
| `NumberText.LaidIsEcma` | src/dtoa.c:3654-3687 | in decimal and the automatic mode the layout of any digits and exponent is that of section 6.1.6.1.20 of ECMA-262 |
| `NumberText.IntegerFewest` | src/dtoa.c:3553-3559 | no digits fewer than those of an integer below 2^53, trailing zeros aside, read back as it, in every radix |
| `NumberText.PlainIsLaid` | src/dtoa.c:3553-3559 | the plain text of an integer below 2^53 is its significant digits laid out |
| `Dtoa.FreeFormat` | src/dtoa.c:3561-3618 | the dispatch between power-of-two search, 128-bit path and exact loop: in every case digits that read back, without trailing zeros, the closest of their length; the fewest for every double in power-of-two radices and in decimal unless exponents are disabled, and wherever the interval is symmetric in every radix |
| `Dtoa.PrintsTooLong` | src/dtoa.c:3561-3618 | the converse: in any other radix, and in decimal with exponents disabled, the printer uses more digits than it takes for some power of two |
| `Dtoa.TextReads` | src/dtoa.c:3498-3692 | digits that read back, once laid out, are read as the pattern they came from, and carry an exponent mark as the number requires |
| `Dtoa.IntegerPrintable` | src/dtoa.c:3553-3559 | an integral double below 2^53 written as a plain integer is written with the fewest and closest digits that read back |
| `Dtoa.FreeIsEcma` | src/dtoa.c:3498-3692 | in decimal and the automatic mode the text is Number::toString of ECMA-262: the fewest digits that read back, of those the closest, in its layout |
| `Dtoa.Print` | src/dtoa.c:3498-3692 | free format: reading the text of any finite double consumes all of it and gives the double back, but for a negative zero printed without its sign; there is an exponent mark exactly where the number requires one in the exponent mode; in decimal and the automatic mode it is Number::toString of ECMA-262; an integer below 2^53 is written with all its digits unless exponents are enabled; zeros, infinities and NaN by their texts |
| `Dtoa.RoundTrip` | src/dtoa.c:3498-4127 | js_atod undoes js_dtoa: every double that is not a NaN comes back bit for bit, in every radix and exponent mode, with and without the fast paths; a NaN comes back as the quiet NaN up to radix 23, and as a number above |
| `Dtoa.NaNText` | src/dtoa.c:3518-3528 | the text of a NaN is refused up to radix 23; above, its letters are digits |
| `Dtoa.ReadPrefixed` | src/dtoa.c:3876-3899 | an integer written behind 0x, 0o or 0b in its radix is read as the nearest double, to the end of the text |
| `Literal.NumSkipZeros` | src/dtoa.c:3933-3948 | leading zeros do not change the number of a digit string |
| `Literal.ScanEnds` | src/dtoa.c:3933-3993 | the digit loops pass their digits and one point and end at the first character that can follow neither |
| `Literal.ScanReads` | src/dtoa.c:3933-3993 | each digit is the one its character stands for, the point being passed over where it stands |
| `LiteralLaws.DigitTable` | src/dtoa.c:3695-3705 | the digits of every radix in order, small and capital letters alike |
| `LiteralLaws.OnlyDigits` | src/dtoa.c:3695-3705 | no other character is a digit |
| `LiteralLaws.NumberReads` | src/dtoa.c:3863-4060 | after an optional sign, digits before and after an optional point are read as exactly those, up to what cannot follow them; with only integers allowed a point ends them |
| `LiteralLaws.ExponentNumberReads` | src/dtoa.c:4011-4047 | with a mark, a sign and decimal digits behind: e in decimal, p for a power of two up to radix 16, @ in every radix but ten |
| `LiteralLaws.PrefixedReads` | src/dtoa.c:3876-3899 | the same in radix 16, 8 or 2 behind the prefix that names it, in either letter case, when a digit follows |
| `LiteralLaws.PrefixedExponentReads` | src/dtoa.c:3876-4047 | with an exponent behind |
| `LiteralLaws.InfinityReads` | src/dtoa.c:3902-3903 | the word Infinity, signed or not, is read as it |
| `LiteralLaws.PrefixFails` | src/dtoa.c:3898-3899 | a prefix no digit of its radix follows is no number, and reading stops behind it |
| `LiteralLaws.ExponentFails` | src/dtoa.c:4026-4028 | an exponent mark no decimal digit follows makes the text no number |
| `LiteralLaws.NothingReads` | src/dtoa.c:4057-4058 | a text that starts with no digit, no point before a digit and not with Infinity is no number |
| `LiteralLaws.CaseBlind` | src/dtoa.c:3863-4047 | but for the word Infinity a text is read like the same text in small letters |
| `LiteralLaws.PrefixedInteger` | src/dtoa.c:3876-3899 | for every n, behind 0x its hexadecimal, behind 0o its octal and behind 0b its binary text, signed or not and in either case, is read as the double nearest n, to the end of the text |
| `LiteralLaws.PrefixUnread` | src/dtoa.c:3880-3885 | without the flag for them, 0o and 0b are read as the zero alone |
| `DigitReader.MulBase` | src/dtoa.c:3707-3725 | the number times a base plus a limb, the stored base 0 standing for 2^64 |
| `DigitReader.PushDigit` | src/dtoa.c:3981-3989 | a digit goes to the pending limb, which is flushed when full; number and pending limb together hold the digits so far |
| `DigitReader.SkipZeros` | src/dtoa.c:3931-3948 | the first loop reads exactly the leading zeros and the point among them |
| `DigitReader.CollectDigit` | src/dtoa.c:3966-3992 | one digit of the second loop: the 16-digit word, its hand-over to the multi-limb number, and the truncation with its record of non-zero digits |
| `DigitReader.ReadSignificant` | src/dtoa.c:3950-3993 | the second loop ends where the scan ends and has collected all of its digits |
| `DigitReader.ReadDigits` | src/dtoa.c:3928-3996 | both loops: positions, counts and the number of the kept digits, and whether a dropped digit is not zero |
| `LiteralValue.ValueRange` | src/dtoa.c:4064-4094 | a literal with a non-zero digit lies between neighbouring powers of its radix |
| `LiteralLaws.ValueMeans` | src/dtoa.c:4000-4047 | the number of a literal: whole digits plus fraction, times the power its exponent names |
| `LiteralLaws.NearestRead` | src/dtoa.c:3835-4127 | the pattern of the double nearest to that number when no digit is dropped |
| `LiteralLaws.CountedIs` | src/dtoa.c:3981-3992 | the digits that count: all in a power-of-two radix, else at most atod_max_digits behind leading zeros |
| `LongLiterals.NearestToWhole` | src/dtoa.c:3981-3992 | with digits dropped the result is the double nearest to the whole literal if and only if they do not take the number past the upper end of that double, half the least double for a zero; an infinity always is |
| `LongLiterals.OneDigitTooMany` | src/dtoa.c:3981-3992 | a literal of 39 digits that is read as 2^53 although 2^53 + 2 is nearer |
| `LiteralValue.ExitsAgree` | src/dtoa.c:4090-4094 | the early overflow and underflow exits agree with rounding, in every radix that is no power of two |
| `LiteralValue.BitExitsAgree` | src/dtoa.c:4064-4072 | the same for power-of-two radices |
| `Conversion.KeptSticky` | src/dtoa.c:3981-3992 | the kept digits are the floor quotient of all digits; a dropped digit is not zero exactly when the remainder is not |
| `Conversion.BinaryRounded` | src/dtoa.c:4007-4073 | in a power-of-two radix the kept digits with their sticky bit round as the whole literal of any length |
| `Conversion.RoomToConvert` | src/dtoa.c:4090-4100 | between the exits the 26-limb number holds every intermediate of the conversion |
| `Conversion.Pack` | src/dtoa.c:4102-4118 | the pattern of a pair: zero, infinity, subnormal or normal, with the sign |
| `Conversion.FastScale` | src/dtoa.c:4077-4083 | one multiplication or division by an exact power of ten gives the nearest double of the exact product or quotient |
| `Conversion.Convert` | src/dtoa.c:4060-4118 | the nearest double of the literal, for every radix, with or without the 16-digit path |
| `Hardware.ProductRounds` | src/dtoa.c:3823-3828 | the product of two doubles is rounded once from the exact product |
| `Hardware.QuotientRounds` | src/dtoa.c:3823-3828 | the quotient of two doubles is rounded once from the exact quotient |
| `Hardware.DyadicExact` | src/dtoa.c:3729-3752 | a number of at most 53 significant bits is a double; so are 10^0 to 10^22 |
| `Atod.ReadExponent` | src/dtoa.c:4011-4047 | the exponent, or a flag once it passes the 32-bit range |
| `Atod.OverflowAgrees` | src/dtoa.c:4037-4054 | a flagged exponent leaves the range of doubles whatever the digits |
| `Atod.AtodBody` | src/dtoa.c:3914-4127 | after sign and prefix: end position and nearest double of the literal, or NaN |
| `Atod.AtodSlow` | src/dtoa.c:3859-4127 | js_atod without its first fast path: sign, prefixes, the word Infinity, then the literal; what is read is told by the laws of LiteralLaws |
| `Atod.FastMantissa` | src/dtoa.c:3774-3799 | answers exactly for 1 to 19 digits around a point: the digits of the scan, their number and the fraction length |
| `Atod.FastExponent` | src/dtoa.c:3800-3818 | the exponent, exact up to where its growth stops |
| `Atod.AtodFast` | src/dtoa.c:3756-3832 | it answers if and only if the text is not a zero with a digit or letter behind it, has 1 to 19 digits that make a number below 2^53 and a power of ten within 22; then end position and double are those of the full reader |
| `Atod.Read` | src/dtoa.c:3835-4127 | js_atod: the end position, and the nearest double, ties to even, of the literal: of all its digits in a power-of-two radix, of the first atod_max_digits significant ones in others; the same with and without fast paths |
| `Sort.Sorter.Sift` | src/cutils.c:526-533 | one sift-down restores the heap and only permutes, for any comparator |
| `Sort.Sorter.HeapSort` | src/cutils.c:514-546 | sorts a range of any length; only permutes it |
| `Sort.Sorter.Med3` | src/cutils.c:548-551 | one of the three positions, its element between the other two |
| `Sort.Sorter.ScanBoth` | src/cutils.c:589-615 | the two scans leave equal elements at both ends, smaller and greater ones inside |
| `Sort.Sorter.SwapBlock` | src/cutils.c:616-628 | two blocks exchanged element by element |
| `Sort.Sorter.Partition` | src/cutils.c:586-628 | around a median of three: everything before p2 at most the pivot, everything from p1 on at least it, and the middle not empty |
| `Sort.Sorter.InsertionSort` | src/cutils.c:645-648 | sorts a range in place; only permutes it |
| `Pending.ClimbingPush` | src/cutils.c:630-643 | stored depths grow strictly up the stack from at least 1 to at most 50, so a push never passes 50 entries |
| `Pending.RearrangeKeeps` | src/cutils.c:580-648 | rearranging inside a pending range keeps the order outside it |
| `Pending.SplitKeeps` | src/cutils.c:630-643 | a range split around a pivot leaves only its two ends pending |
| `Pending.SplitDisjoint` | src/cutils.c:630-643 | the ends stay apart from every other pending range and are smaller than the range |
| `Sort.Sorter.SplitRange` | src/cutils.c:580-643 | one turn of the splitting loop keeps the order of everything not pending and decreases the weight of the stack |
| `Sort.Sorter.SortFrame` | src/cutils.c:574-648 | an entry taken off the stack: splitting, heapsort past depth 50, insertion sort; the weight of the stack decreases |
| `Sort.Sorter.Rqsort` | src/cutils.c:553-650 | for any comparator at all: ends, only permutes, stays in the array and in 50 stack entries; for every total preorder the result is sorted |
| `Utf8.ToUtf8` | src/cutils.c:189-222 | the bytes written are the encoding, nothing else changes; nothing for values from 2^31 on |
| `Utf8.FromUtf8` | src/cutils.c:240-338 | value and length of the encoding at the start, or -1: bad first byte, too short, bad continuation, overlong; past a first byte below 0x80 no more than max_len bytes are used |
| `Utf8.DecodeEncode` | src/cutils.c:240-338 | every encoding is decoded, whatever follows it |
| `Utf8.EncodeDecode` | src/cutils.c:240-338 | any bytes the decoder accepts are exactly the encoding of the value it returns |
| `Utf8.DecodeIs` | src/cutils.c:240-338 | a value is decoded if and only if its encoding stands at the start, within max_len bytes unless it is a single byte |
| `Utf8.OnlyWithin` | src/cutils.c:325-326 | the answer depends on no byte but the first and those within max_len |
| `Utf8.Written` | src/cutils.c:189-222 | the encoding byte by byte for each range of values |
| `Utf8.StreamDecodes` | src/cutils.c:189-338 | encoding any sequence of values below 2^31 and decoding repeatedly returns it and uses every byte |
| `Utf8.StreamCanonical` | src/cutils.c:189-338 | bytes that decode to the end are the one encoding of what they decode to |
| `Half.HalfNearest` | src/cutils.h:389-417 | for every finite double the nearest binary16, ties to even, with overflow to infinity, and the sign |
| `Half.NotFiniteHalf` | src/cutils.h:398-414 | infinities stay infinite, NaN becomes NaN |
| `Half.RoundShiftedIs` | src/cutils.h:404-412 | adding the low bit and half less one, then shifting, rounds half to even |
| `Half.FromHalfExact` | src/cutils.h:378-387 | conversion to a double is exact for every finite binary16, subnormals included |
| `Half.HalfRoundTrip` | src/cutils.h:378-417 | tofp16 undoes fromfp16 for every binary16 that is a number, infinities included |
| `Attempts.ReachIs` | src/dyna-aio.c:244-258 | a row of attempts gets as far as the answers before the first that blocks or fails take it, and never past the end |
| `Attempts.StopIs` | src/dyna-aio.c:244-258 | it ends with an error if and only if some answer, with every earlier one passed and bytes of the range missing, fails with it, or takes bytes when none are left, which is EIO |
| `Attempts.RestIs` | src/dyna-aio.c:244-258 | it ends without an error if and only if the answers run out, the range is complete or the socket blocks |
| `Attempts.EndsShort` | src/dyna-aio.c:254-256 | a file that ends before its range: an attempt made with all of it on the wire, nothing having blocked or failed before, ends with EIO |
| `Attempts.SendRefused` | src/dyna-aio-uring.c:1137-1152 | a direct send is refused if and only if some answer is a failure, all earlier ones passed and fewer bytes than asked for were taken before it |
| `Attempts.RefusedWith` | src/dyna-aio-uring.c:1137-1152 | and it is refused with the error of that answer |
| `UringWrite.WriteSide.NodeDone` | src/dyna-aio-uring.c:230-243 | the node is gone, its callback is made and a pump is to follow; a write has failed exactly when bytes of it were left |
| `UringWrite.WriteSide.PumpTurn` | src/dyna-aio-uring.c:245-283 | one turn of the pump: it returns, submits the next queued node, or fails it for want of an entry with one callback; nothing reaches the wire |
| `UringWrite.WriteSide.SendRaw` | src/dyna-aio-uring.c:1112-1185 | of no bytes, behind others or past an empty queue: the exact new state in each case; bytes go out directly only past an empty queue, as many as the answers before the first that blocks or fails take; what is not sent at once is the last node; refused if and only if some answer is a failure with bytes left and no stop before it |
| `UringWrite.WriteSide.SendFile` | src/dyna-aio-uring.c:1343-1413 | the file range is appended in call order; refused exactly when another file is pending or the length exceeds 32 bits, then with no effect |
| `UringWrite.WriteSide.Kernel` | src/dyna-aio-uring.c:656-733 | whatever the kernel does with the one submission, the wire grows by what comes next in call order |
| `UringWrite.WriteSide.CompleteSend` | src/dyna-aio-uring.c:656-671 | after an error other than EAGAIN, an empty result or the last byte the node ends and reports the error or its count; otherwise the rest is submitted, if there is an entry |
| `UringWrite.WriteSide.CompleteIn` | src/dyna-aio-uring.c:673-693 | file to pipe: bytes go on to the socket, EAGAIN reads again, the end of the file reports what was delivered, any other error ends the node; sent + in_pipe + rem stays the requested length |
| `UringWrite.WriteSide.CompleteOut` | src/dyna-aio-uring.c:694-713 | pipe to socket: what is left in the pipe is sent again, an empty pipe is filled again until the range or the file ends, any error but EAGAIN ends the node; the same conservation |
| `UringWrite.WriteSide.Complete` | src/dyna-aio-uring.c:646-733 | a node ends with one callback: success reports exactly the bytes of the buffer or of what the file held, as the int they are cast to; failure only after an error, an empty result or for want of a submission entry |
| `UringWrite.KernelMayIs` | src/dyna-aio-uring.c:656-733 | what the kernel is allowed to answer is exactly what the submission can have done |
| `UringWrite.WriteSide.Happen` | src/dyna-aio-uring.c:245-283 | each event has its effect whenever it is possible, and none takes back what is on the wire, accepted or called back |
| `UringWrite.WriteSide.Queued` | src/dyna-aio-uring.c:1463-1479 | requested less delivered bytes of the live nodes; with whole files, accepted bytes less those on the wire; 0 exactly when nothing is current or queued |
| `UringWrite.WriteSide.Close` | src/dyna-aio-uring.c:1440-1460 | every live node is to get one callback, the current one first, then the queue in order; the submission that is out is left behind |
| `UringWrite.WriteSide.CloseOne` | src/dyna-aio-uring.c:1440-1457 | one callback of a close, a step of its own |
| `UringWrite.WriteSide.OrphanDoes` | src/dyna-aio-uring.c:656-733 | a submission left behind may still put bytes of its node on the wire, only after its write has failed |
| `UringWrite.WriteSide.OrphanReaped` | src/dyna-aio-uring.c:649-655 | the completion of a dead node frees it without a callback |
| `UringWrite.WriteSide.Ordered` | src/dyna-aio-uring.c:245-283 | until a write fails the wire is a prefix of the call-order concatenation, and at most one submission is out |
| `UringWrite.WriteSide.AllCalledBack` | src/dyna-aio-uring.c:230-243 | with nothing current, queued or to be called back by a close, every accepted call has had exactly one callback |
| `UringWrite.WriteSide.Run` | src/dyna-aio-uring.c:245-283 | over every run of calls, kernel answers, completions, pump turns, closes and whatever callbacks call in between: order, one submission at most, nothing queued without a submission or a pump at work, one callback for every accepted call, and after a delivery that callback reports what the call is due |
| `UringWrite.Int32Exact` | src/dyna-aio-uring.c:669-669 | the reported int is the byte count exactly when the count is below 2^31 |
| `UringWrite.Int32Wraps` | src/dyna-aio-uring.c:709-709 | a file of 2^31 bytes is reported as a negative number |
| `UringWrite.ReportsLength` | src/dyna-aio-uring.c:1137-1185 | a send reports its length exactly when none or all of it went out during the call, and always when a write was current or queued at the call |
| `UringWrite.ShortReport` | src/dyna-aio-uring.c:1137-1185 | a send of two bytes, one of them sent during the call, whose callback reports 1 |
| `UringRecv.UnpackPack` | src/dyna-aio-uring.c:48-52 | descriptor, operation and generation come back from the packed word, which leaves the marker bits clear |
| `UringRecv.TagMatches` | src/dyna-aio-uring.c:747-751 | two bump counts have the same tag exactly when whole rounds of 2^29 lie between them |
| `UringRecv.BumpKeeps` | src/dyna-aio-uring.c:1415-1430 | a bump makes every outstanding operation of the descriptor an old one |
| `UringRecv.Receiver.CallRecv` | src/dyna-aio-uring.c:1072-1110 | arming bumps the generation and gives the kernel an operation under the new tag; without a submission entry only the generation moves; no other descriptor changes |
| `UringRecv.Receiver.CallRecvFrom` | src/dyna-aio-uring.c:1940-1983 | the same for datagrams; a busy descriptor is refused and an armed one left alone |
| `UringRecv.Receiver.Close` | src/dyna-aio-uring.c:1415-1430 | closing bumps the generation and touches no other descriptor |
| `UringRecv.Receiver.Kernel` | src/dyna-aio-uring.c:175-180 | a completion carries the tag of its operation and the next number, and takes the oldest buffer of the ring, or none |
| `UringRecv.Receiver.OutOfBuffers` | src/dyna-aio-uring.c:781-856 | for want of buffers the operation is armed again under a new tag as often as there are buffers, then given up with one callback of -ENOBUFS |
| `UringRecv.Receiver.Data` | src/dyna-aio-uring.c:795-871 | a stream reports the bytes of the completion, a datagram the length its header gives, or -EPROTO if the header is not valid |
| `UringRecv.Receiver.Ended` | src/dyna-aio-uring.c:819-880 | without data a stream reports the error or 0 and is disarmed, a datagram socket reports the error or -EIO |
| `UringRecv.Receiver.Dispatch` | src/dyna-aio-uring.c:747-885 | within a round of generations a completion from before a close or re-arm is dropped, its buffer recycled and nothing else changed; a present one, case by case: retried for want of buffers; stream data reports res; a datagram reports the payload of its header, or -EPROTO; the end of a stream 0, an error itself, a datagram without data -EIO; and what becomes of its buffer and of the operation |
| `UringRecv.Receiver.After` | src/dyna-aio-uring.c:814-884 | after a callback the buffer goes back once; within a round of generations the operation is armed again, or after an error disarmed, if and only if no bump has come since the completion, no more is to come from the kernel and there is an entry |
| `UringRecv.Receiver.BuffersConserved` | src/dyna-aio-uring.c:175-180 | ring, completions and the buffer in a callback make up all the buffers, each once |
| `UringRecv.Receiver.Run` | src/dyna-aio-uring.c:747-885 | over every run in which no operation outlives a round: each callback belongs to one completion the kernel posted, of the operation the descriptor is doing, and reports what that completion brought, case by case; each completion waits, has had its callback, is of an earlier operation or found no buffer; buffers always total nbufs |
| `UringRecv.Receiver.OneCallback` | src/dyna-aio-uring.c:747-885 | no completion has two callbacks, or one while it still waits |
| `UringRecv.Receiver.Starve` | src/dyna-aio-uring.c:781-794 | a stream that never finds a buffer is armed again exactly nbufs times in silence, then reports -ENOBUFS and is disarmed |
| `UringRecv.Datagram` | src/dyna-aio-uring.c:857-871 | a run in which a completion of 40 bytes brings a datagram of 12, and 12 is reported |
| `UringReap.Reap` | src/dyna-aio-uring.c:917-940 | two passes over a queue that grows while the first runs: every completion seen is dispatched exactly once, no accept before anything else, those of one kind in queue order; later arrivals stay |
| `Reactor.Writer.Promote` | src/dyna-aio.c:190-209 | the queue head comes to the front unless it waits for a pending file |
| `Reactor.Writer.WriteTurn` | src/dyna-aio.c:350-404 | one turn of the write loop: the wire grows by what the socket takes; a finished buffer reports its full length, a failed one the error |
| `Reactor.Writer.FileStep` | src/dyna-aio.c:221-258 | how far the attempts get and the error they end with, for every row of socket answers, by positions in the row: its own error for a failure, EIO for an attempt past the end of a short file, none if the range is complete, the socket blocks or the answers run out |
| `Reactor.Writer.FileTurn` | src/dyna-aio.c:426-431 | the file goes out only with no buffer in front; it ends with one callback, of 0 exactly when the whole range is on the wire, else of the error the row ends with, EIO for a file that is too short; otherwise it waits where the row left it |
| `Reactor.Writer.FileDone` | src/dyna-aio.c:269-288 | the queue moves up when the file is done, and the write share of inflight stays right |
| `Reactor.Writer.Flush` | src/dyna-aio.c:173-188 | after an error the whole queue is taken off for its callbacks, one for each buffer in order, which report that error |
| `Reactor.Writer.FlushOne` | src/dyna-aio.c:173-188 | each flushed node gets one callback, with the error of the flush |
| `Reactor.Writer.SendRaw` | src/dyna-aio.c:1303-1397 | accepted bytes are appended in call order; sent at once they report their full length, else the rest waits in front or the buffer is queued last, marked when a file is pending; refused if and only if it is too long or some answer is a failure with bytes left and no stop before it |
| `Reactor.Writer.SendFile` | src/dyna-aio.c:1512-1560 | the exact new state in every case: where the file goes in the schedule, how far it gets at once, its callback; a request of length 0 behind an active buffer is lost and leaks one from inflight |
| `Reactor.Writer.StartFile` | src/dyna-aio.c:1526-1531 | the file is placed behind the leading unmarked buffers and before all others; that is call order exactly when its bytes commute with those it overtakes |
| `Reactor.Writer.Queued` | src/dyna-aio.c:690-706 | everything pending, a file counted with its whole requested range: accepted bytes not on the wire, plus what a short file lacks |
| `Reactor.Writer.Close` | src/dyna-aio.c:1425-1455 | the buffer in front gets its callback, the queue is to be flushed with -ECONNRESET, a pending file is lost, the write share of inflight is returned |
| `Reactor.Writer.Ordered` | src/dyna-aio.c:350-431 | until the first socket error or close, with no other condition, the wire is a prefix of the schedule, a rearrangement of call order, and of call order itself while no file is started over marked buffers |
| `Reactor.Writer.AllCalledBack` | src/dyna-aio.c:173-188 | with nothing left waiting every accepted send has had exactly one callback |
| `Reactor.Writer.FileCalledBack` | src/dyna-aio.c:269-288 | a file request has had all its callbacks if and only if it is neither pending nor lost |
| `Reactor.Writer.Run` | src/dyna-aio.c:350-431 | over every run: the wire a prefix of the schedule, and when the schedule leaves call order; every accepted send called back or waiting once, its callback reporting the bytes asked for or an error; a file request called back exactly once if and only if it is neither pending nor lost, and lost exactly by a request of length 0 behind an active buffer or by a close; the write share of inflight |
| `Reactor.Writer.Happen` | src/dyna-aio.c:350-431 | each event has its effect whenever it is possible; where the bytes of a file go in the schedule |
| `Reactor.ShortFile` | src/dyna-aio.c:244-258 | a run in which a file of one byte in a range of two ends with the callback -EIO |
| `Reactor.Overtaking` | src/dyna-aio.c:195-195 | a run that puts 1, 2, 4 on the wire when 1, 2, 3, 4 was called |
| `Reactor.LostAtCall` | src/dyna-aio.c:1526-1541 | a run after which a file request of length 0 has had no callback, nothing is pending and inflight is one too high |
| `Reactor.LostAtClose` | src/dyna-aio.c:1425-1455 | a run after which a file pending at a close has had no callback |

## Left out

- The fixed and fraction formats of `js_dtoa` and `js_dtoa_max_len`: they use the same rounding with a given number of digits.
- Grisu.ShortestFast: the 637 table entries are not written out; each is taken to be within 1 unit of the scaled power of ten (`AccurateTable`) and, where it is stated when the path answers, to fill its 128 bits (`NormalTable`). The branch for `m == 2^52` is absent because the only caller excludes it.
- Hardware.ProductRounds: multiplication and division of doubles are modelled as one rounding of the exact result, not by their bits; `Hardware.QuotientRounds` likewise.
- Atod.Read: digit separators and legacy octal are absent, the counters are integers without overflow, and a literal whose exponent leaves the 32-bit range is shorter than `FitsCounters` says.
- RoundedScaling.MulPowRound: the scratch number is large enough (`Room`), which is proved for every call of the printer; `RoundedScaling.MulPowRoundToD` likewise for printer and reader.
- Limbs.Div1Norm: one array is read and written, as in its only call; the variant with two arrays is absent.
- The output buffer of `js_dtoa` and of the digit writers is a growing string, so offsets into it and its terminator are not modelled.
- The 32-bit limb variants and the disabled table builders.
- Sort.Sorter.Rqsort: elements are array cells; the byte-wise `exchange_*` and `swap` variants by alignment are absent, and so are the element size and the early return for sizes of 0.
- `DynBuf`, the string helpers and the other functions of `src/cutils.c`.
- UringRecv.Receiver.Run: a completion is dispatched only while fewer than 2^29 bumps have passed since its operation was armed; past that a tag may match by chance, as `TagMatches` says.
- UringRecv.Receiver.Dispatch: the header of a datagram is not taken apart; the length it gives, or that it is not valid, comes with the completion.
- UringWrite.WriteSide.Close: calls after a close go to the same wire and history, although the descriptor may belong to another connection by then.
- Reactor.Writer.Ordered: up to the first socket error or close; what a failed write leaves of the order is not stated.
- `inflight` of the io_uring backend, accept slots, watched descriptors and `dyn_aio_cancel`.
- The TLS paths of both reactors, socket set-up, name resolution, connecting, listening and UDP binding.
- Allocation failure, and the thread pool behind `dyn_pool_*`, which is not part of this model.
- `repl.js`, `src/dyna-async.c`, `src/engine-parser.c`, `src/engine-serialize.c`, the type declarations, demonstrations and benchmarks.
