# Verified models of dist-clang's algorithmic code

dist-clang is a distributed compilation system. Most of its algorithmic code sits in the V8 sources that it keeps
under `perf_test/` as a compilation workload, and in the report tool under `tools/`. This project models that
code in Dafny and proves what it promises, for every input and every run.

* **Number conversion** (`conversions-inl.h`, `conversions.h`, `double.h`, `diy-fp.h`). Doubles are 64-bit
  patterns with an exact integer magnitude in units of 2^-1074; no machine floating point is used.
  `PowerOfTwoRadix` and `ParseInt` are the integer parsers, `StringToDouble` the string-to-number conversion,
  `DecimalSimplification` its cut to 772 digits and a sticky one, `Doubles` and `DiyFps` the bit-level classes.
  `Rounding` and `DecimalOrder` define correct rounding independently of the code (section 4.3.1 of IEEE 754-2008),
  and `CorrectRounding` joins everything: what the parsers hand on rounds to exactly the double that the number
  written in the string rounds to. That rounding is shown to be a function: total and single-valued.
  `WrittenNumbers` and `WrittenIntegers` state the same from the outside, for strings put together from white
  space, a sign, a prefix, digits, a point, an exponent and a rest.
* **Calendar arithmetic** (`date.h`): `Dates`, against the proleptic Gregorian calendar and sections 15.9.1.2 to
  15.9.1.9 of ECMA-262 (5.1).
* **Syntax tree analyses** (`ast.h`): `Jumps` proves `IsJump` sound against a completion semantics with loops,
  switches and exceptions; `RegExpLengths` proves the match-length bounds sound, and attained, against a matching
  semantics with captures and backreferences.
* **Bit sets** (`bit-vector.h`): `BitVectors` refines mathematical sets.
* **Handle blocks** (`api.h`): `HandleBlocks`, an allocator as a state machine, with conservation over all runs.
* **Persistent handles** (`v8.h`): `Persistents`, ownership of storage cells over all runs.
* **Report framing** (`tools/get_report.py`): `Varint`.

Code that updates things in place is modelled by methods and classes, proved against functions and predicates;
the theorems are then about those. `Arithmetic`, `Digits` and `Options` hold what the modules share.

## Where the code and its comments or expectations part

The model follows the code. These are the places where a reader might expect something else, with their lemmas.

* `Double(DiyFp)` truncates to 53 bits only if the exponent of the leading 53 bits is in range *before* a short
  significand is shifted up: 1 * 2^972 becomes infinity although it is a double (`DiyFps.UnnormalizedLosesValue`,
  and the exact condition in `DiyFps.WhenEncodingTruncates`).
* The exponent of a decimal literal saturates at 2^30 - 1. Rounding survives that exactly when the literal and its
  simplified form leave the range of the doubles on the same side (`CorrectRounding.WhenSaturationKeepsRounding`).
  A decimal point that is nearer than the bound to the first significant digit ensures it
  (`CorrectRounding.ConversionKeepsRounding`), and in every string that the engine can allocate (`objects.h:9046`)
  the point is near. Only longer literals can fail (`CorrectRounding.SaturationLosesPoint` has a family of them).
* The debug and the release build of `DeleteExtensions` stop at the same block exactly when no later block adjoins
  the one looked for (`HandleBlocks.DebugAgrees`, `HandleBlocks.AdjoinedBlocksDiffer`).
* Assigning a copyable handle to itself, or resetting it from itself, empties it (`Persistents.CopyCarriesObject`).
* `RegExpQuantifier` saturates `max_match` but not `min_match`, whose product can exceed an `int`. C++ leaves that
  overflow undefined; where it wraps around, the stored minimum is -2 for `(?:ab){2147483647}`
  (`RegExpLengths.MinMatchMayOverflow`). It is the true minimum exactly as long as that fits in an `int`
  (`RegExpLengths.WhenMinMatchIsExact`), and stays a sound lower bound in any case
  (`RegExpLengths.StoredBoundsAreSound`).
* `GrowableBitVector` doubles an `int` length, which overflows for values from 2^30 on when it starts at 1024
  (`BitVectors.InitialGrowth`, exact condition for every start in `BitVectors.WhenGrowthFits`).
* `ToUTC(ToLocal(t))` is t except in the second of two repeated hours (`Dates.UtcOfLocal`).
* The varint decoder accepts padded encodings (`Varint.PaddedZero`, exact condition in
  `Varint.WhenEncodingInverts`), a negative number does not survive the encoder (`Varint.RoundTrip`), and the
  announced message length is ignored (`Varint.LengthIsIgnored`).
* A comment in `InternalStringToInt` says that spaces after a `+` are skipped; the code does not skip them, so
  that such a string is no number (`ParseInt.SpaceAfterSign`, `ParseInt.PlusSpaceFive`).
* A comment on `EquivalentTime` says that years in 1970..2037 are kept. Exactly fourteen years are
  (`Dates.WhenYearIsKept`, `Dates.WhenTimeIsKept`), and 1970 is not among them (`Dates.EpochIsMoved`); it is
  `LocalTimezone` that leaves such times alone.

## Model

| member | source | states |
|---|---|---|
| `Digits.ScanDigit` | perf_test/src/conversions.h:30-34 | the chain of range tests of the parsers accepts exactly the characters that `isDigit` accepts, with a value below the radix |
| `Digits.DigitTable` | perf_test/src/conversions-inl.h:152-157 | the k-th of 0 to 9 and a to z, in either case, is a digit of every larger radix and has value k |
| `Digits.DigitsOfRadix` | perf_test/src/conversions.h:30-34 | no other character is a digit, and a radix takes exactly those with a value below it |
| `Digits.PlaceValue` | perf_test/src/conversions-inl.h:164 | every digit counts with the power of the radix of its place |
| `Digits.AdvanceToNonspace` | perf_test/src/conversions-inl.h:117-126 | stops at the first character that is not white space, and reports false exactly when only white space is left |
| `Rounding.RoundedIsRounding` | perf_test/src/conversions-inl.h:193-208 | nearest, ties to even, with renormalisation of a carry, beats every number with a 53-bit significand and any exponent |
| `Rounding.RoundingUnique` | perf_test/src/conversions-inl.h:193-208 | an integer has at most one correctly rounded 53-bit significand and exponent |
| `Rounding.TiesGoToEven` | perf_test/src/conversions-inl.h:196-201 | 2^53 + 1 rounds down and 2^53 + 3 up |
| `PowerOfTwoRadix.CountOverflowBits` | perf_test/src/conversions-inl.h:165-173 | counts exactly the bits beyond 53, at most five |
| `PowerOfTwoRadix.SkipTail` | perf_test/src/conversions-inl.h:180-186 | runs to the end of the digits, adds up their weight in bits, and knows whether all of them are zero |
| `PowerOfTwoRadix.RoundSignificand` | perf_test/src/conversions-inl.h:193-208 | the half-way test, the tie rule and the carry give the specified rounding decision |
| `PowerOfTwoRadix.TailDecides` | perf_test/src/conversions-inl.h:175-208 | the dropped bits and one bit of knowledge about any number of further digits decide the correct rounding of the whole integer |
| `PowerOfTwoRadix.OverflowRounds` | perf_test/src/conversions-inl.h:166-210 | the state after the tail is skipped determines the rounding of the whole digit string |
| `PowerOfTwoRadix.RoundOverflow` | perf_test/src/conversions-inl.h:166-210 | the overflow branch returns the correctly rounded value of the whole digit string, or junk exactly for trailing junk |
| `PowerOfTwoRadix.StringToIntDouble` | perf_test/src/conversions-inl.h:129-227 | for digit strings of any length in radix 2, 4, 8, 16 and 32: correct rounding to nearest even of the exact integer, no int64 overflow on the way, and the NaN exactly for forbidden trailing junk |
| `ParseInt.ParsePart` | perf_test/src/conversions-inl.h:373-403 | a chunk has its exact value, below its multiplier, which is the power of the radix and stays in 32 bits; every chunk takes a digit or ends the number |
| `ParseInt.ChunkCombines` | perf_test/src/conversions-inl.h:405-406 | chunks combine to the positional value of the whole |
| `ParseInt.UpdateIsExact` | perf_test/src/conversions-inl.h:405-406 | multiply and add are exact under every rounding that leaves the integers up to the final value alone |
| `ParseInt.ParseChunks` | perf_test/src/conversions-inl.h:354-415 | the accumulated value is the exact integer under every rounding that leaves the integers up to it alone |
| `ParseInt.CollectDecimal` | perf_test/src/conversions-inl.h:324-350 | the buffer receives the digits, at most 310 of them, and never overflows |
| `ParseInt.DroppingDigits` | perf_test/src/conversions-inl.h:324-341 | digits are dropped only from integers of at least 10^309, which stay that large |
| `ParseInt.BeyondEveryDouble` | perf_test/src/conversions-inl.h:324-335 | 10^309 exceeds 2^1024 |
| `ParseInt.ParseDigits` | perf_test/src/conversions-inl.h:300-415 | the dispatch on the radix denotes the exact integer in each of its three forms |
| `ParseInt.ParseMagnitude` | perf_test/src/conversions-inl.h:287-415 | bad radices, leading zeros and missing digits are treated as section 15.1.2.2 of ECMA-262 asks |
| `ParseInt.ParseUnsigned` | perf_test/src/conversions-inl.h:259-285 | radix detection and the 0x prefix follow steps 6 to 11 of section 15.1.2.2 |
| `ParseInt.StringToInt` | perf_test/src/conversions-inl.h:230-415 | the whole of parseInt against its specification, for every string and every radix: sign, prefix, digits and value |
| `WrittenIntegers.IntegerInterpreted` | perf_test/src/conversions-inl.h:230-298 | for every white space, sign, digits of any radix and rest: the digits are interpreted in that radix, or in radix 10 if none is given, and the integer is negative exactly behind a minus sign |
| `WrittenIntegers.PrefixInterpreted` | perf_test/src/conversions-inl.h:259-285 | behind 0x or 0X the digits are hexadecimal, in radix 16 and without a radix |
| `WrittenIntegers.RadixOutOfRange` | perf_test/src/conversions-inl.h:287 | every other radix gives no number |
| `WrittenIntegers.IntegerRounds` | perf_test/src/conversions-inl.h:230-415 | the outcome has the sign as written, and stands for the double that the written integer rounds to, or for the integer itself where an approximation is allowed and the machine's rounding leaves it alone |
| `ParseInt.SpaceAfterSign` | perf_test/src/conversions-inl.h:245-257 | every string with a space behind the sign is no number, in every radix |
| `ParseInt.PlusSpaceFive` | perf_test/src/conversions-inl.h:245-257 | "+ 5" is no number while "+5" is 5 |
| `Doubles.SignificandSizeIsLength` | perf_test/src/double.h:157-170 | the significand size for an order of magnitude is the bit length of the significand of every finite double of that order |
| `Doubles.KnownFields` | perf_test/src/double.h:78-119 | the fields of zero, the least denormal, the least normal, one, two and the largest double, and which patterns are special |
| `Doubles.NextMagnitude` | perf_test/src/double.h:78-119 | the next pattern is exactly one unit in the last place further from zero, across binades, denormals and up to infinity |
| `Doubles.Increasing` | perf_test/src/double.h:78-119 | the exact value strictly increases with the bit pattern |
| `Doubles.MagnitudeInjective` | perf_test/src/double.h:78-119 | different patterns of non-negative doubles have different values |
| `Doubles.NextDoubleIsSuccessor` | perf_test/src/double.h:65-76 | no double lies strictly between a double and its `NextDouble`; only -0 and infinity do not increase |
| `Doubles.ShiftToInt32Wraps` | perf_test/src/conversions-inl.h:85-97 | the shift paths give the low 32 bits of the signed integer part although the left shift drops high bits |
| `Doubles.DoubleToInt32IsToInt32` | perf_test/src/conversions-inl.h:85-97 | section 9.5 of ECMA-262 for all 2^64 patterns: congruent modulo 2^32 to the truncated value, zero for NaN and infinities, whatever the fast path returned |
| `DiyFps.DiyFp.Subtract` | perf_test/src/diy-fp.h:27-31 | exact difference at the same exponent |
| `DiyFps.DiyFp.Minus` | perf_test/src/diy-fp.h:36-40 | a new number that added to b gives a; the operands stay |
| `DiyFps.DiyFp.Normalize` | perf_test/src/diy-fp.h:53-71 | sets the top bit and keeps the value exactly |
| `DiyFps.DiyFp.Normalized` | perf_test/src/diy-fp.h:73-77 | the same on a copy |
| `DiyFps.AsDiyFp` | perf_test/src/double.h:36-40 | significand and exponent that reproduce the exact magnitude |
| `DiyFps.AsNormalizedDiyFp` | perf_test/src/double.h:43-57 | sets the top bit and keeps the value, also for denormals |
| `DiyFps.UpperMidpointValue` | perf_test/src/double.h:123-126 | the midpoint to the next pattern is the significand with a one appended |
| `DiyFps.LowerMidpointValue` | perf_test/src/double.h:138-148 | the midpoint to the previous pattern, closer exactly below a power of two that is not the smallest normal |
| `DiyFps.UpperBoundary` | perf_test/src/double.h:123-126 | twice the significand plus one, at half the exponent's weight, without 64-bit overflow |
| `DiyFps.LowerBoundary` | perf_test/src/double.h:135-148 | the lower boundary before alignment, in both cases |
| `DiyFps.Align` | perf_test/src/double.h:149-150 | aligning the lower boundary with the normalized upper one loses no bit |
| `DiyFps.NormalizedBoundaries` | perf_test/src/double.h:132-153 | for every positive finite double, exactly the midpoints to both neighbours, with equal exponents and the upper one normalized; so the upper boundary of a double is the lower one of its successor |
| `DiyFps.ExcessIsLeast` | perf_test/src/double.h:182-185 | shifting down ends with exactly the leading 53 bits |
| `DiyFps.DiyFpToUint64` | perf_test/src/double.h:179-204 | the pattern whose value is the leading 53 bits, infinity or zero, for every significand and exponent |
| `DiyFps.EncodeDecode` | perf_test/src/double.h:31-40 | encoding the decoded form of any non-negative finite double gives it back |
| `DiyFps.WhenEncodingTruncates` | perf_test/src/double.h:179-204 | the result is the 53-bit truncation if and only if the shifted exponent is in range, or the number is zero |
| `DiyFps.UnnormalizedLosesValue` | perf_test/src/double.h:186-188 | 1 * 2^972 becomes infinity, while the same number with a full significand becomes the double it is |
| `DecimalOrder.BinaryAsDecimal` | perf_test/src/conversions.h:20-27 | comparing a decimal with m * 2^x is comparing it with an exact decimal |
| `DecimalOrder.MidpointIsShort` | perf_test/src/conversions.h:20-27 | every midpoint between neighbouring doubles is a decimal of at most 772 significant digits |
| `DecimalOrder.SameOrderSameRounding` | perf_test/src/conversions.h:20-27 | numbers that compare alike with all decimals of 772 digits round to the same double |
| `DecimalSimplification.Significant` | perf_test/src/conversions-inl.h:536-540 | strips exactly the leading zeros |
| `DecimalSimplification.StickyDigit` | perf_test/src/conversions-inl.h:680-683 | a single 1 in place of a nonzero tail of any length keeps the order with respect to every shorter decimal |
| `DecimalSimplification.SimplifiedCompares` | perf_test/src/conversions-inl.h:546-683 | kept digits and shifted exponent compare with every decimal of 772 digits as the literal does |
| `DecimalSimplification.SimplificationKeepsOrder` | perf_test/src/conversions-inl.h:546-683 | the same, quantified over all such decimals |
| `DecimalSimplification.SimplificationKeepsRounding` | perf_test/src/conversions-inl.h:536-690 | a literal of any length and its simplified form round to the same double |
| `StringToDouble.Offer` | perf_test/src/conversions-inl.h:547-555 | the buffer holds the first 772 digits, and the flag whether a nonzero digit was dropped |
| `StringToDouble.ScanInteger` | perf_test/src/conversions-inl.h:545-559 | all digits of the integer part are offered, the insignificant ones counted, and the octal flag is exact |
| `StringToDouble.ScanFraction` | perf_test/src/conversions-inl.h:589-603 | all digits of the fraction are offered; the exponent falls by the number that are kept |
| `StringToDouble.ScanPoint` | perf_test/src/conversions-inl.h:569-603 | leading zeros of the fraction go to the exponent only if no significant digit precedes them |
| `StringToDouble.ScanExponentDigits` | perf_test/src/conversions-inl.h:646-659 | the minimum of the written exponent and the largest allowed one, for any number of digits |
| `StringToDouble.ScanExponentPart` | perf_test/src/conversions-inl.h:614-661 | an exponent part counts exactly if it has a digit |
| `StringToDouble.FinishBuffer` | perf_test/src/conversions-inl.h:680-686 | the digits passed on are the simplified ones and the exponent shift matches; the buffer does not overflow |
| `StringToDouble.FinishOctal` | perf_test/src/conversions-inl.h:672-678 | the buffer reread as an octal number, correctly rounded |
| `StringToDouble.OctalDigits` | perf_test/src/conversions-inl.h:672-678 | digits that the buffer dropped matter only for octal numbers beyond every double, which stay so |
| `StringToDouble.ScanMantissa` | perf_test/src/conversions-inl.h:565-604 | the buffer and the exponent account for every digit of the mantissa |
| `StringToDouble.FinishDecimal` | perf_test/src/conversions-inl.h:614-690 | junk exactly when something other than white space follows and is not allowed; otherwise the simplified digits and exponent |
| `StringToDouble.ConvertLiteral` | perf_test/src/conversions-inl.h:565-690 | a literal without digits is junk; any other is accepted exactly by the grammar and simplified |
| `StringToDouble.ConvertOctal` | perf_test/src/conversions-inl.h:561-678 | an implicit octal literal: what may follow it, and its correctly rounded value |
| `StringToDouble.ConvertDecimal` | perf_test/src/conversions-inl.h:536-690 | decides between octal and decimal exactly by the shape of the integer part |
| `StringToDouble.SubStringEquals` | perf_test/src/conversions-inl.h:99-112 | true exactly if the word is there; then the position behind it |
| `StringToDouble.ConvertPrefixed` | perf_test/src/conversions-inl.h:496-534 | after 0x, 0o or 0b: junk for a sign or a missing digit, otherwise the correctly rounded integer |
| `StringToDouble.ConvertUnsigned` | perf_test/src/conversions-inl.h:474-690 | Infinity, prefixed and decimal literals by the grammar and the flags |
| `StringToDouble.Convert` | perf_test/src/conversions-inl.h:418-690 | the whole conversion of every string under every combination of flags: acceptance, sign, kind, digits and exponent |
| `WrittenNumbers.ExponentReads` | perf_test/src/conversions-inl.h:614-661 | for every prefix, e or E, sign, digits and rest: the exponent part ends behind the digits and is negative exactly behind a minus sign |
| `WrittenNumbers.IncompleteExponent` | perf_test/src/conversions-inl.h:615-644 | an e without digits is no exponent part |
| `WrittenNumbers.LiteralReads` | perf_test/src/conversions-inl.h:545-662 | every literal of the grammar, at every position, reads as it is written: integer, fraction and exponent |
| `WrittenNumbers.DecimalConverts` | perf_test/src/conversions-inl.h:418-690 | for every white space, sign, literal and rest: the sign, the digits and the exponent of the outcome are those written, and what follows must be white space unless junk is allowed |
| `WrittenNumbers.DecimalStringRounds` | perf_test/src/conversions-inl.h:418-690 | from string to double: the outcome rounds to the double that the written number rounds to |
| `WrittenNumbers.OctalConverts` | perf_test/src/conversions-inl.h:543-678 | an integer part with a leading zero and octal digits has its octal value under the flag; a point behind it is junk and an exponent part never allowed |
| `WrittenNumbers.DigitsConvert` | perf_test/src/conversions-inl.h:129-227 | digits of a power-of-two radix have their value, rounded, and what follows must be white space unless junk is allowed |
| `WrittenNumbers.PrefixedConverts` | perf_test/src/conversions-inl.h:496-534 | digits behind 0x, 0o and 0b have their value in radix 16, 8 and 2; a sign or a missing digit is junk |
| `WrittenNumbers.InfinityConverts` | perf_test/src/conversions-inl.h:474-487 | the word Infinity with a sign or none |
| `WrittenNumbers.EmptyConverts` | perf_test/src/conversions-inl.h:440-472 | white space alone is empty, and a sign alone no number |
| `CorrectRounding.RoundsToOne` | perf_test/src/conversions-inl.h:688-689 | no number rounds to two doubles |
| `CorrectRounding.RoundsToSome` | perf_test/src/conversions-inl.h:688-689 | every number rounds to some double |
| `CorrectRounding.NormalRounds` | perf_test/src/conversions-inl.h:217-226 | the 53-bit rounding of an integer with a positive exponent in range is the double it rounds to |
| `CorrectRounding.LargeRounds` | perf_test/src/conversions-inl.h:225-226 | a rounding whose exponent is out of range means that the integer rounds to infinity |
| `CorrectRounding.RoundedIntegerIsDouble` | perf_test/src/conversions-inl.h:129-227 | scaling the parsed significand by its exponent gives the double that the written integer rounds to, including infinity |
| `CorrectRounding.BeyondRounds` | perf_test/src/conversions-inl.h:324-335 | integers from 2^1024 on round to infinity and nothing else |
| `CorrectRounding.ParsedDecimalRounds` | perf_test/src/conversions-inl.h:324-350 | the digits that parseInt keeps in radix 10 round to the double that the whole integer rounds to |
| `CorrectRounding.OctalRoundsAsWritten` | perf_test/src/conversions-inl.h:672-678 | the implicit octal result is the double that the written octal number rounds to, even when digits were dropped |
| `CorrectRounding.HugeRounds` | perf_test/src/conversions-inl.h:646-661 | from 10^432 on every decimal rounds to infinity |
| `CorrectRounding.TinyRounds` | perf_test/src/conversions-inl.h:646-661 | up to 10^-432 every decimal rounds to zero |
| `CorrectRounding.SaturatedRounds` | perf_test/src/conversions-inl.h:646-661 | a saturated exponent sends the literal and its simplified form to the same end of the scale |
| `CorrectRounding.ConversionKeepsRounding` | perf_test/src/conversions-inl.h:536-690 | digits and exponent passed to Strtod round to the double that the literal as written rounds to: any length with an unsaturated exponent, any exponent with a near point |
| `CorrectRounding.PointIsNearInStrings` | perf_test/src/objects.h:9046 | in every string that the engine can allocate the point is near |
| `CorrectRounding.DecimalRoundsAsWritten` | perf_test/src/conversions-inl.h:418-690 | hence every decimal literal in such a string is converted without changing its rounding |
| `CorrectRounding.WhenScalingKeepsRounding` | perf_test/src/conversions-inl.h:646-661 | another power of ten keeps the rounding of a number if and only if both numbers overflow or both underflow |
| `CorrectRounding.WhenSaturationKeepsRounding` | perf_test/src/conversions-inl.h:646-661 | a saturated exponent keeps the rounding of a nonzero literal if and only if literal and simplified form are off the same end of the range, each end a comparison with one midpoint |
| `CorrectRounding.ExponentStepsFit` | perf_test/src/conversions-inl.h:585-682 | every intermediate value of the decimal exponent fits in an int |
| `CorrectRounding.DecimalExponentFits` | perf_test/src/conversions-inl.h:669-688 | in every string that the engine can allocate the final exponent fits in an int and the digits in the buffer |
| `CorrectRounding.BinaryExponentFits` | perf_test/src/conversions-inl.h:178-226 | in every such string the binary exponent fits in an int |
| `CorrectRounding.SaturationLosesPoint` | perf_test/src/conversions-inl.h:646-661 | a family of literals, longer than any string, that are worth 1 but whose simplified form rounds to zero |
| `Dates.DaysFromTimeIsFloor` | perf_test/src/date.h:56-67 | the floor of the quotient for negative times too, the time in the day is the remainder, and the day fits in an int for every time before UTC conversion |
| `Dates.WeekdayIsMod` | perf_test/src/date.h:70-75 | the weekday for negative days too |
| `Dates.LeapByFloor` | perf_test/src/date.h:78-80 | the truncating remainders decide leap years as the Gregorian rule does, for negative years too |
| `Dates.YearLength` | perf_test/src/date.h:78-80 | consecutive years start 365 or 366 days apart, as `IsLeap` says |
| `Dates.MonthLength` | perf_test/src/date.h:185-191 | the twelve month lengths |
| `Dates.YearFromDays` | perf_test/src/date.h:185-187 | the year that contains the day, for every day |
| `Dates.YearMonthDayFromDays` | perf_test/src/date.h:185-191 | a valid date with exactly that day number |
| `Dates.DateUnique` | perf_test/src/date.h:185-191 | no other date has that day number |
| `Dates.EquivalentYearMatches` | perf_test/src/date.h:173-183 | for every year: in 2008..2035, equally leap, and starting on the same weekday |
| `Dates.EquivalentYearIdempotent` | perf_test/src/date.h:177-183 | the equivalent year of an equivalent year is itself |
| `Dates.WhenYearIsKept` | perf_test/src/date.h:177-183 | a year is its own equivalent if and only if it is one of fourteen representative years |
| `Dates.EquivalentDayKeeps` | perf_test/src/date.h:164-171 | keeps month, day of the month and weekday |
| `Dates.EquivalentTimeKeeps` | perf_test/src/date.h:164-171 | for every time: keeps month, day, weekday and time within the day, and lands in what the operating system accepts |
| `Dates.EquivalentTimeIdempotent` | perf_test/src/date.h:164-171 | the equivalent time of an equivalent time is itself |
| `Dates.WhenTimeIsKept` | perf_test/src/date.h:155-171 | a time is kept if and only if its year is a representative one |
| `Dates.EpochIsMoved` | perf_test/src/date.h:155-171 | the times of the first day of 1970 are moved, though the operating system accepts them |
| `Dates.TimeForTimezone` | perf_test/src/date.h:92-97 | no time that the operating system does not accept reaches it |
| `Dates.LocalIsAhead` | perf_test/src/date.h:105-152 | local time is ahead of UTC by the offset plus the daylight saving |
| `Dates.UtcOfLocal` | perf_test/src/date.h:105-152 | back to t, except one hour early exactly in the second of two repeated hours |
| `Dates.LocalOfUtcOfLocal` | perf_test/src/date.h:105-152 | local times survive the way to UTC and back |
| `Dates.LocalOfUtc` | perf_test/src/date.h:105-152 | a local time comes back exactly when it occurs at all, and one hour later otherwise |
| `Dates.DateCache.LocalOffsetInMs` | perf_test/src/date.h:83-89 | the cached offset, or the answer of the operating system, which is asked only once unless it is the sentinel |
| `Dates.DateCache.ToLocal` | perf_test/src/date.h:105-109 | ahead of the time by the cached offset plus the daylight saving at it |
| `Dates.DateCache.ToUTC` | perf_test/src/date.h:111-152 | behind the time by the cached offset plus the daylight saving one hour before |
| `BitVectors.MaskIsShift` | perf_test/src/bit-vector.h:96-110 | one shifted left by k is the word whose only bit is k |
| `BitVectors.BitIsSeen` | perf_test/src/bit-vector.h:96-100 | the mask test reads exactly bit k |
| `BitVectors.MembersUnion` | perf_test/src/bit-vector.h:112-117 | words or-ed together are the union |
| `BitVectors.MembersIntersection` | perf_test/src/bit-vector.h:130-135 | words and-ed together are the intersection |
| `BitVectors.MembersDifference` | perf_test/src/bit-vector.h:148-153 | words and-ed with the complement are the difference |
| `BitVectors.MembersExtended` | perf_test/src/bit-vector.h:86-94 | words copied and padded with zeros are the same set |
| `BitVectors.MembersEmpty` | perf_test/src/bit-vector.h:155-166 | the set is empty exactly if all words are zero |
| `BitVectors.MembersInjective` | perf_test/src/bit-vector.h:168-173 | sets are equal exactly if the words are |
| `BitVectors.MembersSwitched` | perf_test/src/bit-vector.h:102-110 | switching one bit adds or removes one member |
| `BitVectors.BitVector.constructor` | perf_test/src/bit-vector.h:69-75 | empty, with the padding bits zero |
| `BitVectors.BitVector.CopyFrom` | perf_test/src/bit-vector.h:86-94 | the other set, from any shorter or equal length |
| `BitVectors.BitVector.Contains` | perf_test/src/bit-vector.h:96-100 | membership |
| `BitVectors.BitVector.Add` | perf_test/src/bit-vector.h:102-105 | adds exactly i and keeps the padding zero |
| `BitVectors.BitVector.Remove` | perf_test/src/bit-vector.h:107-110 | removes exactly i |
| `BitVectors.BitVector.Union` | perf_test/src/bit-vector.h:112-117 | the union, also with itself |
| `BitVectors.BitVector.UnionIsChanged` | perf_test/src/bit-vector.h:119-128 | the union, and true exactly if the set changed |
| `BitVectors.BitVector.Intersect` | perf_test/src/bit-vector.h:130-135 | the intersection |
| `BitVectors.BitVector.IntersectIsChanged` | perf_test/src/bit-vector.h:137-146 | the intersection, and true exactly if the set changed |
| `BitVectors.BitVector.Subtract` | perf_test/src/bit-vector.h:148-153 | the difference |
| `BitVectors.BitVector.Clear` | perf_test/src/bit-vector.h:155-159 | the empty set |
| `BitVectors.BitVector.IsEmpty` | perf_test/src/bit-vector.h:161-166 | true exactly for the empty set |
| `BitVectors.BitVector.Equals` | perf_test/src/bit-vector.h:168-173 | true exactly for equal sets |
| `BitVectors.GrowableBitVector.constructor` | perf_test/src/bit-vector.h:207 | empty, without storage |
| `BitVectors.GrowableBitVector.WithLength` | perf_test/src/bit-vector.h:208-209 | empty, with the given length |
| `BitVectors.GrowableBitVector.Contains` | perf_test/src/bit-vector.h:211-214 | membership for every natural number, in range or not |
| `BitVectors.GrowableBitVector.EnsureCapacity` | perf_test/src/bit-vector.h:238-245 | growth changes no membership, and the new length is the old one doubled until it is above the value |
| `BitVectors.GrownIsLeast` | perf_test/src/bit-vector.h:240-241 | the new length is the least doubling of the old one above the value |
| `BitVectors.WhenGrowthFits` | perf_test/src/bit-vector.h:240-241 | no length on the way leaves the range of an int if and only if the value is below the last doubling that fits |
| `BitVectors.InitialGrowth` | perf_test/src/bit-vector.h:232-241 | from the initial length exactly the values below 2^30 fit; with wrap-around the loop would not end for any other |
| `BitVectors.GrowableBitVector.Add` | perf_test/src/bit-vector.h:216-219 | adds exactly the value to the set, and grows to exactly that length |
| `BitVectors.GrowableBitVector.Clear` | perf_test/src/bit-vector.h:227-229 | the empty set |
| `BitVectors.SkipZeroBytes` | perf_test/src/bit-vector.h:42-48 | shifts out zero bytes only and advances by as many bits |
| `BitVectors.SkipZeroBits` | perf_test/src/bit-vector.h:49-55 | shifts out zero bits only, down to a set lowest bit |
| `BitVectors.SkipZeros` | perf_test/src/bit-vector.h:42-55 | together they advance by exactly the number of trailing zeros of any nonzero word |
| `HandleBlocks.ApplyKeepsValid` | perf_test/src/api.h:544-676 | every operation keeps each block in exactly one place, and the live blocks disjoint |
| `HandleBlocks.RunKeepsValid` | perf_test/src/api.h:544-676 | so does every run from a valid state |
| `HandleBlocks.EveryRunConserves` | perf_test/src/api.h:544-676 | over every run each allocated block is in exactly one of: the stack, the spare, held by the caller, freed once |
| `HandleBlocks.FreeFreesAll` | perf_test/src/api.h:560-572 | after `Free` on an idle allocator every block ever allocated has been freed exactly once |
| `HandleBlocks.TakenBlock` | perf_test/src/api.h:640-646 | the caller gets the spare if there is one and otherwise a new block; no spare is left |
| `HandleBlocks.ReturnedBlock` | perf_test/src/api.h:544-548 | the block returned becomes the spare, and the old spare is freed |
| `HandleBlocks.AddedBlock` | perf_test/src/api.h:541 | a block that the caller pushes leaves its hands for the top of the stack |
| `HandleBlocks.PopToLeaves` | perf_test/src/api.h:665-673 | popping leaves exactly a prefix of the stack |
| `HandleBlocks.PopToFrees` | perf_test/src/api.h:669-672 | popping frees the old spare and every popped block but the lowest, which becomes the spare |
| `HandleBlocks.CutLeavesPrefix` | perf_test/src/api.h:649-663 | the release test stops at the block with that limit |
| `HandleBlocks.DeletedLeavesPrefix` | perf_test/src/api.h:649-676 | `DeleteExtensions` with the limit of a block leaves exactly the stack up to that block |
| `HandleBlocks.CutToNull` | perf_test/src/api.h:649-676 | with NULL nothing is left, in both builds |
| `HandleBlocks.CutToNone` | perf_test/src/api.h:649-673 | a limit that no block has leaves nothing |
| `HandleBlocks.DebugStopsInside` | perf_test/src/api.h:653-660 | the debug build stops at the last block exactly for a limit inside it, both ends included |
| `HandleBlocks.DebugCutAgrees` | perf_test/src/api.h:653-663 | the debug range test and the release equality test stop at the same block if and only if no later block adjoins it |
| `HandleBlocks.DebugAgrees` | perf_test/src/api.h:653-663 | the same in every reachable state |
| `HandleBlocks.AdjoinedBlocksDiffer` | perf_test/src/api.h:653-663 | a state reached by a run from the initial one, with two adjoined blocks, at which they stop differently |
| `HandleBlocks.HandleScopeImplementer.constructor` | perf_test/src/api.h:551-558 | the initial state |
| `HandleBlocks.HandleScopeImplementer.TakeSpareOrNewBlock` | perf_test/src/api.h:640-646 | the spare if there is one, else a new block, now held by the caller |
| `HandleBlocks.HandleScopeImplementer.Return` | perf_test/src/api.h:544-548 | the block becomes the spare; the old spare is freed |
| `HandleBlocks.HandleScopeImplementer.PopBlock` | perf_test/src/api.h:665-672 | one round of the loop |
| `HandleBlocks.HandleScopeImplementer.CutTo` | perf_test/src/api.h:650-673 | the loop pops to exactly the cut |
| `HandleBlocks.HandleScopeImplementer.DeleteTo` | perf_test/src/api.h:649-676 | refines the operation of the state machine |
| `HandleBlocks.HandleScopeImplementer.FreeAll` | perf_test/src/api.h:560-572 | refines the operation of the state machine |
| `Persistents.ApplyKeepsValid` | perf_test/include/v8.h:6460-6538 | every operation keeps cell ownership exclusive and disposal single, whichever handles coincide |
| `Persistents.RunKeepsValid` | perf_test/include/v8.h:6460-6538 | so does every run |
| `Persistents.EveryRunDisposesOnce` | perf_test/include/v8.h:670-840 | over every run: one owner at most, disposal at most once and never while owned, and exactly once when all copyable and unique handles are gone |
| `Persistents.CopyCarriesObject` | perf_test/include/v8.h:6471-6480 | a copy or reset refers to the source's object if and only if it is not a self-assignment of a non-empty handle; the source keeps its cell |
| `Persistents.ResetEmpties` | perf_test/include/v8.h:6512-6517 | the handle is empty and exactly its cell disposed |
| `Persistents.ResetToRefers` | perf_test/include/v8.h:6520-6527 | the handle refers to what the local handle refers to, be it empty |
| `Persistents.CreateRefers` | perf_test/include/v8.h:696-704 | a new handle refers to what the local handle refers to |
| `Persistents.CreateFromRefers` | perf_test/include/v8.h:705-727 | a new handle refers to what the other handle refers to, which keeps its cell |
| `Persistents.MoveConstructTakes` | perf_test/include/v8.h:814-820 | a new handle has the very cell, and the source is empty |
| `Persistents.DestroyRemoves` | perf_test/include/v8.h:737-744 | only this handle goes, and its cell is disposed unless its kind does not reset |
| `Persistents.MoveCarriesObject` | perf_test/include/v8.h:817-840 | a move hands over the very cell, empties the source, and is harmless on itself |
| `Persistents.Isolate.NewCell` | perf_test/include/v8.h:6461-6468 | a new cell that refers to the object and belongs to the handle |
| `Persistents.Isolate.CreateHandle` | perf_test/include/v8.h:696-704 | refines construction from a local handle, empty or not |
| `Persistents.Isolate.CreateHandleFrom` | perf_test/include/v8.h:705-727 | refines construction from a persistent handle |
| `Persistents.Isolate.MoveConstructHandle` | perf_test/include/v8.h:814-820 | refines move construction |
| `Persistents.Isolate.ResetHandle` | perf_test/include/v8.h:6512-6517 | disposes the cell if there is one |
| `Persistents.Isolate.ResetHandleTo` | perf_test/include/v8.h:6520-6527 | refines reset to a local handle, empty or not |
| `Persistents.Isolate.ResetHandleFrom` | perf_test/include/v8.h:6530-6538 | refines reset from a persistent handle, itself included |
| `Persistents.Isolate.CopyHandle` | perf_test/include/v8.h:6471-6480 | refines copying, from itself included |
| `Persistents.Isolate.MoveAssignHandle` | perf_test/include/v8.h:822-832 | refines assignment from a handle passed by value, from itself included |
| `Persistents.Isolate.DestroyHandle` | perf_test/include/v8.h:737-744 | refines destruction, with or without reset |
| `Jumps.BreakOccurs` | perf_test/src/ast.h:1047 | a statement completes with a break only to a target that one of its break statements names |
| `Jumps.JumpAtEnd` | perf_test/src/ast.h:502-505 | a list whose last statement is a jump cannot complete normally |
| `Jumps.IsJumpIsSound` | perf_test/src/ast.h:502-505 | no statement tree for which `IsJump` holds ever completes normally, from any store and after any number of steps, with all loops, switches and exception handlers inside |
| `Jumps.IsJumpIsExact` | perf_test/src/ast.h:502-505 | on statements without loops, labels and dead code, a statement is a jump if and only if it never completes normally, whatever the conditions of its ifs are |
| `Jumps.JumpsLeave` | perf_test/src/ast.h:1034-1047 | continue, break, return and throw are jumps and leave by their own completions |
| `Jumps.LabelsMatter` | perf_test/src/ast.h:502-505 | a labelled block that ends in a jump can complete normally, so the label test is needed |
| `Jumps.DeadCodeHidesJump` | perf_test/src/ast.h:502-505 | the converse fails: only the last statement is looked at |
| `Jumps.MoreFuel` | perf_test/src/ast.h:267 | an outcome does not depend on the step bound, so the semantics has one outcome per statement and store |
| `RegExpLengths.QuantifierMaxSaturates` | perf_test/src/ast.h:2975-2987 | the saturated product is the minimum of kInfinity and the true product, and the other branch cannot overflow |
| `RegExpLengths.MaxMatchInRange` | perf_test/src/ast.h:2839-3108 | no maximum exceeds kInfinity |
| `RegExpLengths.MatchWithinBounds` | perf_test/src/ast.h:2839-3108 | every match of every tree, with captures and backreferences, has a length between the mathematical minimum and `max_match` |
| `RegExpLengths.MinMatchIntWraps` | perf_test/src/ast.h:2979 | the stored minimum of every tree is the true one modulo 2^32, however often products wrap around |
| `RegExpLengths.WhenMinMatchIsExact` | perf_test/src/ast.h:2979 | the stored minimum is the true one if and only if that fits in an int |
| `RegExpLengths.StoredBoundsAreSound` | perf_test/src/ast.h:2839-3108 | every match lies between the stored bounds, wrapped around or not |
| `RegExpLengths.RepeatsWithinBounds` | perf_test/src/ast.h:2972-3014 | n iterations of a body have between n times its minimum and n times its maximum |
| `RegExpLengths.MinMatchMayOverflow` | perf_test/src/ast.h:2979 | a quantifier whose minimum exceeds the int range and is stored as -2 |
| `RegExpLengths.WordLength` | perf_test/src/ast.h:2888-3108 | a shortest and a longest word built from the tree have exactly the two lengths |
| `RegExpLengths.WordMatches` | perf_test/src/ast.h:2888-3108 | those words match, in any context |
| `RegExpLengths.BoundsAreAttained` | perf_test/src/ast.h:2888-3108 | for trees of atoms, texts, classes that have a member, quantifiers and captures both bounds are attained |
| `RegExpLengths.AssertionAttained` | perf_test/src/ast.h:2857-2858 | an assertion that holds has the length that both its bounds announce |
| `RegExpLengths.LookaheadAttained` | perf_test/src/ast.h:3066-3067 | so has a lookahead whose body matches |
| `RegExpLengths.NegativeLookaheadAttained` | perf_test/src/ast.h:3066-3067 | and a negative one whose body does not |
| `RegExpLengths.BackReferenceAttained` | perf_test/src/ast.h:3090-3091 | a back reference to a group that took its longest word is as long as its maximum |
| `RegExpLengths.UnsetBackReference` | perf_test/src/ast.h:3090-3091 | a back reference to a group that took no part is as short as its minimum |
| `RegExpLengths.TextLengthSnoc` | perf_test/src/ast.h:2961-2964 | appending an element adds its length |
| `RegExpLengths.RegExpText.constructor` | perf_test/src/ast.h:2951 | an empty text |
| `RegExpLengths.RegExpText.AddElement` | perf_test/src/ast.h:2961-2964 | appends, and the length field stays both match bounds of the text |
| `Varint.EncodeIsVarint` | tools/get_report.py:11-16 | an encoding is a well-formed varint, as short as possible, with the value encoded |
| `Varint.EncodedGroup` | tools/get_report.py:11-16 | the k-th byte holds the k-th group of seven bits, the lowest first |
| `Varint.ThreeHundred` | tools/get_report.py:11-27 | 300 is the bytes AC 02 |
| `Varint.DecodeVarint` | tools/get_report.py:19-27 | decoding reads exactly a varint and leaves whatever follows |
| `Varint.DecodeReadsVarint` | tools/get_report.py:19-27 | decoding succeeds exactly if some byte ends a varint, and reads exactly that prefix |
| `Varint.RoundTrip` | tools/get_report.py:11-27 | decoding an encoding with any suffix gives number and suffix back, if and only if the number is not negative |
| `Varint.PrefixFree` | tools/get_report.py:11-16 | no encoding is a proper prefix of another |
| `Varint.WhenEncodingInverts` | tools/get_report.py:11-27 | encoding the value of a varint gives it back if and only if it was not padded |
| `Varint.PaddedZero` | tools/get_report.py:19-27 | a padded varint that decodes |
| `Varint.VarintEncode` | tools/get_report.py:11-16 | the loop computes the encoding |
| `Varint.VarintDecode` | tools/get_report.py:19-27 | the loop computes the decoding, and fails exactly when the buffer ends early |
| `Varint.FrameRoundTrip` | tools/get_report.py:30-49 | unframing a frame gives the payload |
| `Varint.FrameAnnounces` | tools/get_report.py:46-49 | the decompressed frame is the length of the payload and then the payload |
| `Varint.LengthIsIgnored` | tools/get_report.py:39-40 | the announced length has no influence |
| `Varint.FrameInjective` | tools/get_report.py:46-49 | different payloads have different frames |
| `Varint.Socket.GetMessage` | tools/get_report.py:30-43 | unframes the whole stream, however it is split into chunks |
| `Varint.Socket.SendMessage` | tools/get_report.py:46-49 | sends the frame |
| `Varint.Transfer` | tools/get_report.py:30-49 | every payload arrives, for every split of the stream |

## Left out

- `Strtod`, `ldexp`, `FastD2UI`, `DoubleToFloat32` and other machine floating point: the conversions end with digits
  and an exponent, or a significand and an exponent; that these round to the right double is proved, that `Strtod`
  finds it is not.
- Doubles.DoubleToInt32IsToInt32: the platform conversion `FastD2I` is a parameter with any result; the product of
  a sign and an int32 wraps, where C++ leaves the negation of the least int32 undefined.
- ParseInt.ParseChunks: the rounding of double arithmetic is a parameter; nothing is claimed about chunks whose value it changes, which
  section 15.1.2.2 of ECMA-262 leaves to the implementation.
- The `int` counters of the parsers are unbounded in the model; that exponents fit in an `int` is proved for strings that the
  engine can allocate, positions and counts of digits are at most the length. int64 and uint32 values are shown to fit.
- White space is any predicate on characters; the conversion to a double needs that `e` and `E` are not white space, and the theorems
  about written numbers that letters, digits, points and signs are not.
- Characters are Dafny characters: iterators over one- and two-byte strings are one sequence.
- `DiyFp::Multiply`, `Times` and the cached powers built on them: only declared.
- `YearMonthDayFromDays` and `DaysFromYearMonth` are only declared in the header; they are defined here by the calendar.
- The daylight saving cache of `DateCache`, `TimezoneOffset`, cache stamps and all operating system calls: the daylight
  saving offset is a function of the time with values zero and one hour, the local offset a parameter.
- `BitVector::Count`, `Iterator::Advance` and `GrowableBitVector::Union`, which iterates with it: not in the header. Words
  have 64 bits.
- BitVectors.GrowableBitVector.EnsureCapacity: the doubled length is a mathematical integer; C++ leaves its overflow undefined, and when
  it happens is stated by `BitVectors.WhenGrowthFits`.
- BitVectors.GrowableBitVector.Add: for values that `BitVectors.WhenGrowthFits` excludes the set is that of unbounded growth.
- `Detach`, deferred scopes, archiving and handle zapping of `HandleScopeImplementer`, and its context stacks. Blocks
  are added to the stack by an operation of the caller; addresses are counted in slots.
- Weak callbacks, flags and class ids of persistent handles, type checks of the templates, and `Empty()`, `ClearAndLeak`
  and the casts that drop a cell without disposing it.
- `RegExpDisjunction` and `RegExpAlternative`: their constructors, which compute the bounds, are not in the header.
- RegExpLengths.BoundsAreAttained: not for trees that contain assertions, lookaheads, backreferences or classes without a member, which
  may match nothing; for the first three alone there are separate lemmas.
- Jumps.IsJumpIsSound: expressions are functions of the store; `for-in` and `for-of` advance by an expression that tells whether an
  element is left; generators and module statements are absent. The semantics counts steps, and the theorem holds for every count.
- zlib, the socket and protobuf: compression is a pair of functions of which decompression inverts compression, a receive
  gives any non-empty chunk up to the limit, and messages are byte strings.
- The rest of `perf_test/` (code generation, the heap, profiling, relocation information, counters), and dist-clang's own
  C++ (networking, caching, process control).
