# Verification of the arithmetic, the scheduling, the wire formats and the game

This project models the parts of the repository that are hardest to get right, and proves
what they are there for. Each part has the form of its source: objects whose fields are
updated are classes, loops are loops with invariants, and the specifications they are
proved against are functions about which the main theorems are proved.

**Big numbers and decimal digits** (the vendored double-conversion library). `Bignum.dfy`
is the big number in its fixed array of 128 digits of 28 bits with a digit exponent; the
value of a number is the sum of its digits times 2^(28 (i + exponent)). Every operation
leaves exactly the value it promises, in machine words that are shown not to wrap or to
wrap harmlessly: the in-place squaring (`Comba.dfy`), the powers (`BignumPowers.dfy`), the
division with its estimate, the three-way comparison. `BignumDtoa.dfy` is the printer on
top of it, and `PowerEstimate.dfy` its floating-point estimate of the decimal exponent,
which is exact for any rounding below its guard. `Shortest.dfy`, `Rounding.dfy` and
`FixedRounding.dfy` say what its digits mean for the double: the shortest decimal that
reads back as the same double, or the double rounded half upwards; `NearestDouble.dfy`
that reading back is the rounding of IEEE 754, so that no two doubles are printed alike.
`FixedDtoa.dfy` is the fast printer with its 128-bit arithmetic (`UInt128.dfy`), proved
against the same meaning, so that the two printers agree. `Digits.dfy`, `Decimal.dfy` and
`BignumLemmas.dfy` hold the arithmetic they share.

**The event loop** (the vendored libuv). `Heap.dfy` is the binary heap of nodes with left,
right and parent links, whose next free slot is found from the bits of the node count.
`Timers.dfy` is the timer interface and the timer runner with its ready queue, for
callbacks that start, stop, repeat and close any timers and let the clock go on.
`PoolProtocol.dfy` is the thread pool as a state machine of the critical sections of
workers, submitters, cancellers and the loop, with its invariant over all runs;
`PoolWakeups.dfy` adds who sleeps on the condition variable and whom a signal wakes, and
that no wake-up is lost, `PoolOrder.dfy` in which order and how soon work is started;
`ThreadPool.dfy` is the queue code that does these steps.

**The wire formats.** `WebSocketSpec.dfy` is the frame machine byte by byte and the
independence of how a stream is cut; `WebSocketParser.dfy` is the parser with its bulk
copying, proved equal to it; `WebSocketFrames.dfy` is the framing of section 5.2 to 5.4 of
RFC 6455, the header encoder of the server, and what is delivered for streams of
fragmented messages; `WebSocketWire.dfy` says what these frames are octet by octet and bit
by bit. `JsonSpec.dfy` is the JSON grammar and the printed form, `JsonGrammar.dfy` the
texts of RFC 8259 and that the parser accepts exactly these, `JsonRoundTrip.dfy` the round
trip, `JsonUnicode.dfy` what the bytes and the escapes of a code point mean to a reader,
`JsonNumbers.dfy` which numbers are too big, `JsonContext.dfy` the parser on its moving
position and the appending printer, and `JsonFailures.dfy` what a failed parse leaves
behind.

**The UNO room.** `Cards.dfy` and `RoomRules.dfy` are the cards, the rules of what may be
played, the seats and the dealing round the table; `Room.dfy` is the room with its ticks
and requests. Its invariant holds in every state of every run, with requests in the middle
of the dealing and players leaving: all cards are accounted for, an open penalty stands on
a penalty card and is the sum of what was played, the turn is at the table, and the
dealing is where its counter says.

Where the source departs from its own comments or assertions the code was followed, and
the difference is a lemma with a concrete case and the exact condition:

- two assertions of the big number division that its documented precondition does not give:
  `BignumLemmas.SmallTopDigit` with `BignumLemmas.TopDigitExact` and
  `BignumLemmas.TopDigitBound`, and `BignumLemmas.ReductionLosesLength` with
  `BignumLemmas.ReductionExact`;
- two shortest decimals at the same distance: the header promises the upper one, the code takes
  the even one: `ShortestTies.QuarterTie` and `ShortestTies.TieRule`;
- a card is taken apart into its colour twice: `Cards.DecomposeFails`;
- a player who can be reported and leaves is still marked, and the next report fails an
  assertion: `Rooms.Room.PlayLeaveReport`, with the exact condition in
  `Rooms.Room.PlayerLeave`, `Rooms.Room.ReportRequest` and, over runs, `Rooms.Room.Run`;
- the turn of an idle room is compared as an unsigned number: `Rooms.Room.LeaveIdle`;
- keys are printed without escapes: `JsonFailures.QuoteInKey` and
  `JsonRoundTrip.KeyReadsBack`;
- a string that breaks off leaves its characters on the stack, which is asserted to be
  empty: `JsonFailures.LetterLeftOver` with `JsonFailures.LeftOver`;
- any letter is taken for a hexadecimal digit: `JsonGrammar.OddEscape`, with the exact condition
  in `JsonGrammar.HexTable` and `JsonGrammar.ProperPoint`;
- a low surrogate that stands alone is accepted as a code point: `JsonUnicode.LoneSurrogate`
  and `JsonUnicode.ScalarUnless`.

## Model

| member | source | states |
|---|---|---|
| Bignums.Bignum.AssignUInt64 | third-party/MyWebSocket/third-party/leptjson/third-party/double-conversion/bignum.cc:65-72 | the number becomes the 64-bit value, as clamped digits with exponent 0 |
| Bignums.Bignum.AssignBignum | third-party/MyWebSocket/third-party/leptjson/third-party/double-conversion/bignum.cc:75-81 | the number becomes the other one, which is unchanged |
| Bignums.Bignum.AddBignum | third-party/MyWebSocket/third-party/leptjson/third-party/double-conversion/bignum.cc:166-209 | in place, the value becomes the sum, clamped, and the other operand keeps its value: no digit of it, of the gap between the two or of the carry is lost, wherever the two exponents lie |
| Bignums.Bignum.SubtractBignum | third-party/MyWebSocket/third-party/leptjson/third-party/double-conversion/bignum.cc:212-236 | for an operand that is not larger, the value becomes the difference; the borrow always ends inside the digits |
| Bignums.Bignum.ShiftLeft | third-party/MyWebSocket/third-party/leptjson/third-party/double-conversion/bignum.cc:239-247 | the value is multiplied by 2^shift, by exponent and by bits, when the result fits the buffer |
| Bignums.Bignum.MultiplyByUInt32 | third-party/MyWebSocket/third-party/leptjson/third-party/double-conversion/bignum.cc:250-276 | the value is multiplied by the 32-bit factor; the exponent stays |
| Bignums.Bignum.MultiplyByUInt64 | third-party/MyWebSocket/third-party/leptjson/third-party/double-conversion/bignum.cc:279-308 | the value is multiplied by the 64-bit factor |
| BignumLemmas.WideProduct | third-party/MyWebSocket/third-party/leptjson/third-party/double-conversion/bignum.cc:294-301 | in the split 64-bit multiplication no expression wraps although the carry can reach 2^64 - 1, and digit and carry make up the exact product |
| Bignums.Bignum.MultiplyByPowerOfTen | third-party/MyWebSocket/third-party/leptjson/third-party/double-conversion/bignum.cc:311-352 | the value is multiplied by 10^exponent, by powers of five taken from the tables and one shift |
| PowerSteps.FiveTable | third-party/MyWebSocket/third-party/leptjson/third-party/double-conversion/bignum.cc:312-331 | the tabulated constants are the powers of five they stand for |
| Bignums.ReadUInt64 | third-party/MyWebSocket/third-party/leptjson/third-party/double-conversion/bignum.cc:84-94 | up to 19 decimal digits are read as the integer they denote, within 64 bits |
| Bignums.Bignum.AssignDecimalString | third-party/MyWebSocket/third-party/leptjson/third-party/double-conversion/bignum.cc:97-115 | the number becomes the integer that the decimal string denotes, for every string whose value fits, of any length and with any number of leading zeros |
| Bignums.Bignum.Square | third-party/MyWebSocket/third-party/leptjson/third-party/double-conversion/bignum.cc:355-424 | the value becomes its square, for every number with at most half the digits of the capacity |
| Comba.SquareDigits | third-party/MyWebSocket/third-party/leptjson/third-party/double-conversion/bignum.cc:355-424 | the in-place column sums leave the digits of the square; while the digits overwrite their own copy no column reads one that is gone |
| Comba.SquareColumns | third-party/MyWebSocket/third-party/leptjson/third-party/double-conversion/bignum.cc:377-421 | the weighted convolution columns of any digits add up to the square |
| Comba.ConvBound | third-party/MyWebSocket/third-party/leptjson/third-party/double-conversion/bignum.cc:371-376 | a column of n digit products is below n * 2^56, which is what keeps the accumulator within 64 bits |
| Comba.AccumulatorEmpty | third-party/MyWebSocket/third-party/leptjson/third-party/double-conversion/bignum.cc:418 | nothing is left in the accumulator after the last column |
| Bignums.Bignum.AssignPowerUInt16 | third-party/MyWebSocket/third-party/leptjson/third-party/double-conversion/bignum.cc:427-498 | the number becomes base^e for every base and exponent that fit: the powers of two set aside, the 64-bit phase and the multiplication it may leave over, and the big phase together |
| PowerSteps.Power64 | third-party/MyWebSocket/third-party/leptjson/third-party/double-conversion/bignum.cc:457-481 | the 64-bit phase stops before anything overflows, with the power of the exponent bits seen so far, short by one factor exactly when it says so |
| PowerSteps.HighBits | third-party/MyWebSocket/third-party/leptjson/third-party/double-conversion/bignum.cc:467-475 | when the high bits are zero one more factor fits 64 bits; when they are not, the value is above 32 bits, so that no bit is processed after the delayed factor |
| Bignums.Bignum.DivideModuloIntBignum | third-party/MyWebSocket/third-party/leptjson/third-party/double-conversion/bignum.cc:502-565 | for a divisor above 0 and a quotient below 2^16 the quotient is returned and the remainder is left, clamped |
| Bignums.Bignum.ReduceLength | third-party/MyWebSocket/third-party/leptjson/third-party/double-conversion/bignum.cc:519-530 | the length reduction removes a number of multiples that never exceeds the quotient, and ends no longer than the divisor |
| Bignums.Bignum.DivideSameLength | third-party/MyWebSocket/third-party/leptjson/third-party/double-conversion/bignum.cc:532-564 | with the top digits aligned, the one-digit shortcut, the estimate and the subtractions after it lead to quotient and remainder |
| BignumLemmas.EstimateQuotient | third-party/MyWebSocket/third-party/leptjson/third-party/double-conversion/bignum.cc:547-559 | the estimate is never above the quotient, and is the quotient whenever the early return is taken |
| BignumLemmas.LargeTopDigit | third-party/MyWebSocket/third-party/leptjson/third-party/double-conversion/bignum.cc:523 | a quotient below 16 implies that a shorter divisor has the large top digit that is asserted |
| BignumLemmas.SmallTopDigit | third-party/MyWebSocket/third-party/leptjson/third-party/double-conversion/bignum.cc:501-523 | 2^28 by 2^13 meets the documented quotient bound 2^16, and has a small top digit: the assertion does not follow from the bound |
| BignumLemmas.TopDigitExact | third-party/MyWebSocket/third-party/leptjson/third-party/double-conversion/bignum.cc:501-523 | a divisor has the large top digit that is asserted, for all longer dividends within the documented quotient bound, exactly when its top digit is at least 2^24, or no longer dividend is within the bound |
| BignumLemmas.TopDigitBound | third-party/MyWebSocket/third-party/leptjson/third-party/double-conversion/bignum.cc:501-523 | 16 is the exact quotient bound that implies the assertion for all operands: no bound above it does, with 2^28 by 2^24 - 1 as the witness |
| BignumLemmas.ReductionExact | third-party/MyWebSocket/third-party/leptjson/third-party/double-conversion/bignum.cc:519-531 | a divisor meets that assertion for all dividends exactly when it is at most the largest digit at the place of its top digit; for every other divisor the next weight, whose quotient is 1, makes it fail |
| BignumLemmas.ReductionLosesLength | third-party/MyWebSocket/third-party/leptjson/third-party/double-conversion/bignum.cc:531 | 2^56 by 2^56 - 1: the reduction leaves a shorter number, so that assertion can fail, while the result is right |
| Bignums.Bignum.SubtractTimes | third-party/MyWebSocket/third-party/leptjson/third-party/double-conversion/bignum.cc:767-794 | factor times the other is subtracted, also when the pass returns before the top digit and skips the clamping |
| Bignums.Bignum.BigitIsQuotient | third-party/MyWebSocket/third-party/leptjson/third-party/double-conversion/bignum.cc:633-641 | the digit at any position, stored, hidden or beyond the top, is the number divided by the weight, modulo the base |
| Bignums.Bignum.Compare | third-party/MyWebSocket/third-party/leptjson/third-party/double-conversion/bignum.cc:644-667 | the sign of the difference of the two values, however the same value is split into digits and exponent |
| Bignums.Bignum.PlusCompare | third-party/MyWebSocket/third-party/leptjson/third-party/double-conversion/bignum.cc:670-712 | the sign of a + b - c, through every shortcut on lengths and with a borrow of at most one digit unit |
| BignumLemmas.PlusStep | third-party/MyWebSocket/third-party/leptjson/third-party/double-conversion/bignum.cc:693-707 | one digit of the comparison: a negative running difference, or one above 1, decides it, and otherwise it carries on exactly |
| Bignums.Bignum.Clamp | third-party/MyWebSocket/third-party/leptjson/third-party/double-conversion/bignum.cc:715-723 | top zeros go, the value stays, and zero has one representation |
| Bignums.Bignum.Align | third-party/MyWebSocket/third-party/leptjson/third-party/double-conversion/bignum.cc:726-748 | hidden zero digits become stored ones; the value stays |
| BignumDtoa.GenerateShortestDigits | third-party/MyWebSocket/third-party/leptjson/third-party/double-conversion/bignum-dtoa.cc:185-274 | ends, with digits 0 to 9 that lie in the interval round the ratio (its ends only for an even significand), no decimal with fewer digits in it, and none with as many that is closer |
| Shortest.NineNotRoundedUp | third-party/MyWebSocket/third-party/leptjson/third-party/double-conversion/bignum-dtoa.cc:212-267 | the digit that is rounded up is never a 9 |
| Shortest.NoRoom | third-party/MyWebSocket/third-party/leptjson/third-party/double-conversion/bignum-dtoa.cc:203-222 | as long as neither side has room, no decimal with the digits so far lies in the interval |
| Shortest.StepFinish | third-party/MyWebSocket/third-party/leptjson/third-party/double-conversion/bignum-dtoa.cc:223-271 | when a side has room the chosen decimal lies in the interval, no other of that length is closer, and if one is as close the chosen one is even |
| Shortest.BufferHasRoom | third-party/MyWebSocket/third-party/leptjson/third-party/double-conversion/bignum-dtoa.cc:195-199 | the loop has never produced more digits than the width of the interval allows |
| BignumDtoa.GenerateCountedDigits | third-party/MyWebSocket/third-party/leptjson/third-party/double-conversion/bignum-dtoa.cc:283-318 | exactly count digits, which are the ratio rounded half upwards, with the decimal point moved when the carry runs past the first digit |
| Decimal.PropagateTens | third-party/MyWebSocket/third-party/leptjson/third-party/double-conversion/bignum-dtoa.cc:304-317 | a 10 in the last place is carried to the front; the number is kept |
| Decimal.DigitTable | third-party/MyWebSocket/third-party/leptjson/third-party/double-conversion/bignum-dtoa.cc:187-199 | digits are the characters from 0 to 9 in order |
| BignumDtoa.BignumToFixed | third-party/MyWebSocket/third-party/leptjson/third-party/double-conversion/bignum-dtoa.cc:326-367 | the ratio rounded half upwards at the requested decimal, with the no-digit and the one-digit case |
| BignumDtoa.InitialScaledStartValues | third-party/MyWebSocket/third-party/leptjson/third-party/double-conversion/bignum-dtoa.cc:568-598 | for every sign of the exponents: numerator over denominator is the double over 10^power and the distances are those to the midpoints of its neighbours, also when the lower one is closer |
| BignumDtoa.FixupMultiply10 | third-party/MyWebSocket/third-party/leptjson/third-party/double-conversion/bignum-dtoa.cc:612-639 | scales by ten exactly when the upper end of the interval is below 1, and says where the decimal point is |
| BignumDtoa.BignumDtoa | third-party/MyWebSocket/third-party/leptjson/third-party/double-conversion/bignum-dtoa.cc:89-169 | every mode, single precision included, from the estimate of the exponent on: the shortest decimal that reads back as the double, of at most 17 digits, the closest of its length and with an even last digit when two are; the double rounded half upwards to the requested decimals; or to the requested number of digits; with a final zero character; whatever the rounding errors of the estimate below its guard |
| PowerEstimate.NormalizedExponent | third-party/MyWebSocket/third-party/leptjson/third-party/double-conversion/bignum-dtoa.cc:37-44 | the exponent after the significand is moved up to the hidden bit: it and 52 are the exponent of the power of two below the double |
| PowerEstimate.EstimateExact | third-party/MyWebSocket/third-party/leptjson/third-party/double-conversion/bignum-dtoa.cc:370-411 | the floating-point estimate, with any rounding error below the guard of 10^-10, is exactly the k with 10^(k-1) < 2^x <= 10^k for the power of two at or below the double, for all exponents of doubles: 205/681 and 146/485 enclose the logarithm with no fraction of a small denominator between them and it |
| PowerEstimate.EstimatePower | third-party/MyWebSocket/third-party/leptjson/third-party/double-conversion/bignum-dtoa.cc:383-411 | computes that k |
| PowerEstimate.EstimateServes | third-party/MyWebSocket/third-party/leptjson/third-party/double-conversion/bignum-dtoa.cc:370-411 | the estimate is at most one too small for the double and for the upper end of what reads back as it, and is not negative for an exponent that is not, as the start values ask |
| Rounding.IntervalMeaning | third-party/MyWebSocket/third-party/leptjson/third-party/double-conversion/bignum-dtoa.cc:529-567 | a decimal lies in the scaled interval of the digit generation exactly when it reads back as the double |
| Rounding.ErrorMeaning | third-party/MyWebSocket/third-party/leptjson/third-party/double-conversion/bignum-dtoa.cc:529-567 | what is closer among the scaled integers is closer to the double |
| Rounding.FixedUpInRange | third-party/MyWebSocket/third-party/leptjson/third-party/double-conversion/bignum-dtoa.cc:128-155 | a power estimate that is at most one too small gives the digit generation what it asks for |
| Rounding.SeventeenDigits | third-party/MyWebSocket/third-party/leptjson/third-party/double-conversion/bignum-dtoa.cc:185-199 | 53 bits need at most 17 digits |
| Rounding.NotCoarser | third-party/MyWebSocket/third-party/leptjson/third-party/double-conversion/bignum-dtoa.cc:171-184 | no decimal whose last digit is at a higher place than that of the result reads back as the double |
| Rounding.ShortestMeaning | third-party/MyWebSocket/third-party/leptjson/third-party/double-conversion/bignum-dtoa.cc:171-184 | the digits are the shortest decimal that reads back as the double; of those of that length they are the closest, and of two that are as close the even one |
| NearestNumber.ReadsBackNearest | third-party/MyWebSocket/third-party/leptjson/third-party/double-conversion/ieee.h:192-218 | the interval that the digit generation keeps to is exactly rounding to nearest: a decimal lies in it when among all numbers of the format, double or single, denormals included, this one is the nearest, or with an even significand one of the two nearest |
| NearestNumber.NearestUnique | third-party/MyWebSocket/third-party/leptjson/third-party/double-conversion/bignum-dtoa.h:57-62 | no decimal is nearest to two numbers, also half way between them |
| NearestNumber.PrintedReadsBack | third-party/MyWebSocket/third-party/leptjson/third-party/double-conversion/bignum-dtoa.h:57-62 | what is printed for a number in the shortest form is read as that number and as no other |
| NearestNumber.PrintedApart | third-party/MyWebSocket/third-party/leptjson/third-party/double-conversion/bignum-dtoa.h:57-62 | different numbers have different shortest forms |
| ShortestTies.TieRule | third-party/MyWebSocket/third-party/leptjson/third-party/double-conversion/bignum-dtoa.h:60-61 | the documented rule, upwards when two decimals are as close, is kept for exactly those numbers that are not half way above an even shortest decimal |
| ShortestTies.QuarterTie | third-party/MyWebSocket/third-party/leptjson/third-party/double-conversion/bignum-dtoa.cc:233-258 | the rule fails for 2^50 + 1/4, whose digits end in .2 |
| FixedRounding.RatioMeaning | third-party/MyWebSocket/third-party/leptjson/third-party/double-conversion/bignum-dtoa.cc:276-282 | rounding the scaled ratio is rounding the double at the decimal place |
| FixedRounding.FarBelow | third-party/MyWebSocket/third-party/leptjson/third-party/double-conversion/bignum-dtoa.cc:117-126 | in the fixed mode the shortcut for small doubles answers what the rounding would give |
| FixedRounding.OddNotPowerOfTen | third-party/MyWebSocket/third-party/leptjson/third-party/double-conversion/bignum-dtoa.cc:612-627 | a double with an odd significand of full size is never a power of ten, so the treatment of the open interval in the fixup cannot lead to a first digit zero |
| FixedRounding.CountedFixed | third-party/MyWebSocket/third-party/leptjson/third-party/double-conversion/bignum-dtoa.cc:326-367 | counted digits that end at the last decimal are the double rounded to that decimal |
| FixedRounding.CountedPrecise | third-party/MyWebSocket/third-party/leptjson/third-party/double-conversion/bignum-dtoa.cc:283-318 | counted digits that do not start with zero are the double rounded to that many digits |
| FixedRounding.FixedUnique | third-party/MyWebSocket/third-party/leptjson/third-party/double-conversion/fixed-dtoa.cc:310-403 | two printed forms of one double with the same number of decimals and no zeros at the ends are the same: the fast printer and the bignum printer, trimmed, agree |
| WideInt.UInt128.Multiply | third-party/MyWebSocket/third-party/leptjson/third-party/double-conversion/fixed-dtoa.cc:42-57 | the 128-bit value is multiplied when the product fits |
| WideInt.UInt128.Shift | third-party/MyWebSocket/third-party/leptjson/third-party/double-conversion/fixed-dtoa.cc:59-80 | the value is divided by a power of two, or multiplied when the shift is negative |
| WideInt.UInt128.DivModPowerOf2 | third-party/MyWebSocket/third-party/leptjson/third-party/double-conversion/fixed-dtoa.cc:82-95 | quotient and remainder by a power of two, for every split of the words |
| WideInt.UInt128.BitAt | third-party/MyWebSocket/third-party/leptjson/third-party/double-conversion/fixed-dtoa.cc:101-107 | the binary digit at a position |
| FixedDtoa.FillDigits32 | third-party/MyWebSocket/third-party/leptjson/third-party/double-conversion/fixed-dtoa.cc:130-150 | the digits of the number, after the reversal in place, without touching what is in front |
| FixedDtoa.FillDigits64FixedLength | third-party/MyWebSocket/third-party/leptjson/third-party/double-conversion/fixed-dtoa.cc:153-165 | exactly 17 digits of a number below 10^17 |
| FixedDtoa.FillDigits64 | third-party/MyWebSocket/third-party/leptjson/third-party/double-conversion/fixed-dtoa.cc:168-186 | the digits of a 64-bit number from its three parts |
| FixedDtoa.RoundUp | third-party/MyWebSocket/third-party/leptjson/third-party/double-conversion/fixed-dtoa.cc:189-216 | one unit is added in the last place, through any run of nines, with the decimal point moved when the number grows |
| FixedDtoa.NarrowDigits | third-party/MyWebSocket/third-party/leptjson/third-party/double-conversion/fixed-dtoa.cc:237-259 | each digit from the multiplication by 5 is at most 9 and exact, nothing overflows 64 bits, and the bit that decides the rounding is the right one |
| FixedDtoa.WideDigits | third-party/MyWebSocket/third-party/leptjson/third-party/double-conversion/fixed-dtoa.cc:260-286 | the same for fractions of up to 128 bits |
| FixedDtoa.FillFractionals | third-party/MyWebSocket/third-party/leptjson/third-party/double-conversion/fixed-dtoa.cc:230-287 | the whole number in the buffer, decimals included, is the value rounded half upwards to the requested decimals |
| FixedDtoa.TrimZeros | third-party/MyWebSocket/third-party/leptjson/third-party/double-conversion/fixed-dtoa.cc:292-307 | no zeros are left at either end, and the decimal that is denoted is the same |
| FixedDtoa.TinyMeaning | third-party/MyWebSocket/third-party/leptjson/third-party/double-conversion/fixed-dtoa.cc:383-389 | an exponent below -128 rounds to zero with up to 20 decimals |
| FixedDtoa.SplitLarge | third-party/MyWebSocket/third-party/leptjson/third-party/double-conversion/fixed-dtoa.cc:329-362 | a double above 64 bits is split at 10^17 exactly |
| FixedDtoa.FastFixedDtoa | third-party/MyWebSocket/third-party/leptjson/third-party/double-conversion/fixed-dtoa.cc:310-403 | for every significand of 53 bits: refused exactly for an exponent or a number of decimals above 20, else the double rounded half upwards to the decimals, without zeros at the ends |
| TimerHeap.PathTo | third-party/MyWebSocket/third-party/libuv/src/heap-inl.h:119-124 | the binary digits of the node number below the first give the path, within 32 bits |
| TimerHeap.Heap.FindSlot | third-party/MyWebSocket/third-party/libuv/src/heap-inl.h:126-136 | following the path leads to the slot of that node number, to the node above it and to its side |
| TimerHeap.Heap.NodeSwap | third-party/MyWebSocket/third-party/libuv/src/heap-inl.h:72-104 | parent and child exchange their places; the tree stays a complete binary tree with consistent links in both directions |
| TimerHeap.Heap.SiftUp | third-party/MyWebSocket/third-party/libuv/src/heap-inl.h:143-147 | a node that may be less than the one above it moves up until the whole tree is in order |
| TimerHeap.Heap.SiftDown | third-party/MyWebSocket/third-party/libuv/src/heap-inl.h:213-230 | a node moves down until nothing below it is less |
| TimerHeap.Heap.Insert | third-party/MyWebSocket/third-party/libuv/src/heap-inl.h:106-148 | the heap keeps shape, links and order, and has exactly one node more, the new one |
| TimerHeap.Heap.Remove | third-party/MyWebSocket/third-party/libuv/src/heap-inl.h:150-237 | any node can be removed: the heap keeps shape, links and order, and has exactly that node less |
| TimerHeap.Heap.Min | third-party/MyWebSocket/third-party/libuv/src/heap-inl.h:67-69 | a least node, or none exactly when the heap is empty |
| TimerHeap.Heap.Dequeue | third-party/MyWebSocket/third-party/libuv/src/heap-inl.h:239-241 | the least node is gone, and no other |
| TimerHeap.RootIsLeast | third-party/MyWebSocket/third-party/libuv/src/heap-inl.h:32-51 | in a tree that is in order no node is less than the root |
| TimerHeap.AncestorBound | third-party/MyWebSocket/third-party/libuv/src/heap-inl.h:119-136 | the digits of a path and the nodes on it stay in range |
| Timers.Loop.TimerStop | third-party/MyWebSocket/third-party/libuv/src/timer.c:98-110 | the timer is in neither the heap nor the ready queue, and no other timer moves |
| Timers.Loop.TimerStart | third-party/MyWebSocket/third-party/libuv/src/timer.c:68-95 | refused without effect for a closing handle or no callback; else exactly that timer is armed, for now plus the timeout at most the largest 64-bit number, as the last one started |
| Timers.Loop.TimerAgain | third-party/MyWebSocket/third-party/libuv/src/timer.c:113-123 | a repeating timer is armed for its repeat time; others stay as they are |
| Timers.Loop.TimerClose | third-party/MyWebSocket/third-party/libuv/src/timer.c:198-200 | the timer is in neither the heap nor the ready queue and is closing from now on; that it stays so is a clause of RunTimers |
| Timers.Loop.CollectReady | third-party/MyWebSocket/third-party/libuv/src/timer.c:173-184 | exactly the timers that are due leave the heap; an earlier timeout comes first, and of two with the same timeout the one started first |
| Timers.Loop.RunCallback | third-party/MyWebSocket/third-party/libuv/src/timer.c:192-193 | whatever timers a callback starts, stops, repeats, closes or sets to another repeat time, and whenever it updates the time of the loop, the ready queue only loses timers it names, and loses all that it stops, closes, starts with a callback, or repeats when they repeat; a closing timer stays so; the time is that of its last update |
| Timers.Loop.RunTimers | third-party/MyWebSocket/third-party/libuv/src/timer.c:165-195 | ends for all scripts of callbacks; the due timers are called by timeout and, for the same timeout, in the order they were started, without the skipped, each at most once; a timer is skipped only when a callback before its turn named it and always when one stopped, closed, started or repeated it, a closing timer stays closing and unarmed, and one that no callback names is untouched if it was not due, else disarmed, or armed again if it repeats, for the time the loop has at its turn after the updates of the callbacks before it |
| Timers.Loop.CalledInOrder | third-party/MyWebSocket/third-party/libuv/src/timer.c:38-55 | of two timers started one after the other for the same time the one started first is called first |
| Timers.Loop.DueThen | third-party/MyWebSocket/third-party/libuv/src/timer.c:66-110 | a timer that nothing touches runs when the loop time has come to its start time plus its timeout and not before, and is then off or armed for its repeat time from there on; times end at 2^64 - 1 |
| Timers.Loop.Perform | third-party/MyWebSocket/third-party/libuv/src/timer.c:68-130 | what a callback does to a timer has its effect on that timer and on no other; a ready timer leaves the queue exactly when it is stopped, closed, started with a callback, or repeated and repeats, and nothing is put on the queue |
| Timers.OneMoreCallback | third-party/MyWebSocket/third-party/libuv/src/timer.c:186-194 | one more callback extends the account of who was skipped and why |
| Timers.StrictlyFirst | third-party/MyWebSocket/third-party/libuv/src/timer.c:38-55 | with start counts all different the least timer is before every other |
| Timers.Loop.NextTimeout | third-party/MyWebSocket/third-party/libuv/src/timer.c:144-162 | -1 exactly without timers, 0 exactly when one is due, else the time to the earliest one, at most the largest int |
| PoolProtocol.LookInv | third-party/MyWebSocket/third-party/libuv/src/threadpool.c:66-120 | a look at the queue keeps the invariant, and starts at most one request, which was not started before |
| PoolProtocol.FinishInv | third-party/MyWebSocket/third-party/libuv/src/threadpool.c:125-130 | handing over a finished request keeps the invariant |
| PoolProtocol.ReturnInv | third-party/MyWebSocket/third-party/libuv/src/threadpool.c:134-138 | giving back the slot keeps the invariant |
| PoolProtocol.PostInv | third-party/MyWebSocket/third-party/libuv/src/threadpool.c:143-161 | submitting keeps the invariant: a slow request never leaves two messages in the queue |
| PoolProtocol.CancelTakeInv | third-party/MyWebSocket/third-party/libuv/src/threadpool.c:286-294 | a request that can be cancelled has not been started, and is taken from the one queue it was in |
| PoolProtocol.CancellableMeans | third-party/MyWebSocket/third-party/libuv/src/threadpool.c:289 | a request is linked and not finished exactly when it is submitted, not started and not being cancelled |
| PoolProtocol.CancelDeliverInv | third-party/MyWebSocket/third-party/libuv/src/threadpool.c:299-303 | delivering the cancellation keeps the invariant |
| PoolProtocol.CollectInv | third-party/MyWebSocket/third-party/libuv/src/threadpool.c:309-332 | what the loop collects was either run or cancelled |
| PoolProtocol.StepInv | third-party/MyWebSocket/third-party/libuv/src/threadpool.c:57-332 | every step of every worker, submitter, canceller or the loop keeps the invariant |
| PoolProtocol.RunInv | third-party/MyWebSocket/third-party/libuv/src/threadpool.c:57-332 | the invariant holds in every state of every run with any number of workers |
| PoolProtocol.Safety | third-party/MyWebSocket/third-party/libuv/src/threadpool.c:57-332 | in every state of every run an outstanding request is in exactly one place, pending slow work is announced exactly once, at most half the threads, rounded up, run slow requests, and nothing cancelled was started; all counted on the queues and workers themselves |
| PoolProtocol.StaysCancelled | third-party/MyWebSocket/third-party/libuv/src/threadpool.c:282-306 | after an accepted cancellation the request is never started, whatever happens until the loop collects it |
| PoolOrder.FirstComeFirstStarted | third-party/MyWebSocket/third-party/libuv/src/threadpool.c:66-161 | in every run of two requests of the same kind the one submitted first is started first, unless it is taken back |
| PoolOrder.StartedSoon | third-party/MyWebSocket/third-party/libuv/src/threadpool.c:66-120 | a fast request is started at the latest with as many looks at the queue as there are entries up to it, unless it is taken back or the pool was told to end |
| PoolOrder.SlowStartedSoon | third-party/MyWebSocket/third-party/libuv/src/threadpool.c:87-120 | a slow request is started at the latest at as many turns of slow work as there are slow requests up to it, unless it is taken back; a turn is a look at the message with fewer than half of the workers, rounded up, on slow work |
| PoolOrder.SleepsWithoutWork | third-party/MyWebSocket/third-party/libuv/src/threadpool.c:72-80 | a worker goes to sleep exactly when there is no fast work and no message to end, and half of the workers are busy with slow work if the message for it is there |
| PoolOrder.FirstFinishedFirstReported | third-party/MyWebSocket/third-party/libuv/src/threadpool.c:126-332 | in every run of two requests that workers or cancellations hand to the loop the earlier one is in front of the other when the loop collects them |
| PoolWakeups.StepNoneLost | third-party/MyWebSocket/third-party/libuv/src/threadpool.c:72-161 | no step loses a wake-up: while a worker sleeps there are at least as many workers about to look at the queue as entries in it that can be taken, whichever workers a signal wakes and whichever wake up without one |
| PoolWakeups.NoLostWakeUp | third-party/MyWebSocket/third-party/libuv/src/threadpool.c:57-332 | this holds in every state of every run with any number of workers |
| PoolWakeups.SomebodyLooks | third-party/MyWebSocket/third-party/libuv/src/threadpool.c:72-80 | so when a worker sleeps and the queue holds something to take, some other worker is awake and will look |
| ThreadPools.ThreadPool.Worker | third-party/MyWebSocket/third-party/libuv/src/threadpool.c:66-120 | the loop body under the mutex does exactly a look of the protocol, with the signals that it needs |
| ThreadPools.ThreadPool.CondSignal | third-party/MyWebSocket/third-party/libuv/src/threadpool.c:113-115 | wakes sleeping workers only, and at least one if there is any |
| ThreadPools.ThreadPool.WakeUp | third-party/MyWebSocket/third-party/libuv/src/threadpool.c:78-79 | the end of a wait is exactly a waking of the protocol, and the count of idle workers was above 0 |
| ThreadPools.ThreadPool.Submit | third-party/MyWebSocket/third-party/libuv/src/threadpool.c:143-161 | does exactly a post of the protocol, and signals when it has to; with PoolOrder.FirstComeFirstStarted requests of a kind are started in this order |
| ThreadPools.ThreadPool.PostExitMessage | third-party/MyWebSocket/third-party/libuv/src/threadpool.c:138-176 | the message to end is put at the end of the queue exactly as in the protocol, and no wake-up is lost |
| ThreadPools.ThreadPool.CancelUnlink | third-party/MyWebSocket/third-party/libuv/src/threadpool.c:282-297 | succeeds exactly for requests that are submitted and not started, and takes them from their queue |
| ThreadPools.ThreadPool.CancelPost | third-party/MyWebSocket/third-party/libuv/src/threadpool.c:299-305 | does exactly a delivery of the protocol |
| ThreadPools.ThreadPool.WorkDone | third-party/MyWebSocket/third-party/libuv/src/threadpool.c:309-332 | each request is reported once, in order, as cancelled exactly when it never ran |
| ThreadPools.ThreadPool.FinishWork | third-party/MyWebSocket/third-party/libuv/src/threadpool.c:122-130 | does exactly a finish of the protocol |
| ThreadPools.ThreadPool.ReturnToQueue | third-party/MyWebSocket/third-party/libuv/src/threadpool.c:134-138 | does exactly a return of the protocol, wakes nobody and loses no wake-up, and a slow worker always has a slot to give back |
| WebSocketSpec.RunAppend | third-party/MyWebSocket/src/core/websocket_parser.cpp:49-190 | parsing a buffer and then another leads to what parsing both at once leads to |
| WebSocketSpec.ChunkIndependence | third-party/MyWebSocket/src/core/websocket_parser.cpp:49-190 | however a stream is cut into buffers, the delivered messages, the final state and the failure are those of the whole stream |
| WebSocketSpec.SameStream | third-party/MyWebSocket/src/core/websocket_parser.cpp:49-190 | two ways to cut one stream cannot be told apart |
| WebSocketSpec.BulkRead | third-party/MyWebSocket/src/core/websocket_parser.cpp:140-157 | copying a stretch of payload at once is the same as taking it byte by byte |
| WebSocketSpec.XorTwice | third-party/MyWebSocket/src/core/websocket_parser.cpp:146 | unmasking undoes masking, bit by bit |
| WebSocketSpec.XorMeaning | third-party/MyWebSocket/src/core/websocket_parser.cpp:146 | a bit of the exclusive or is set exactly when the two bits differ |
| WebSocketParser.Parser.UnmaskPayload | third-party/MyWebSocket/src/core/websocket_parser.cpp:142-148 | octet i of a stretch is unmasked by octet (start + i) mod 4 of the key: each of its bits differs from the one on the wire exactly when that bit of the key is set |
| WebSocketParser.Parser.Parse | third-party/MyWebSocket/src/core/websocket_parser.cpp:49-190 | the loop over a buffer, fast path included, ends and does what the bytes one after the other do |
| WebSocketFrames.LengthBytesRun | third-party/MyWebSocket/src/core/websocket_parser.cpp:80-114 | each of the three forms of a payload length is read back, whatever the length below 2^64 |
| WebSocketFrames.HeaderRun | third-party/MyWebSocket/src/core/websocket_parser.cpp:49-131 | a whole header, masked or not, with any length below 2^64, leaves the parser at the payload with exactly its flags, opcode, length and key |
| WebSocketFrames.FrameRun | third-party/MyWebSocket/src/core/websocket_parser.cpp:49-190 | an encoded frame, masked or not, empty or not, is parsed as the frame |
| WebSocketFrames.FrameAtOnce | third-party/MyWebSocket/src/core/websocket_parser.cpp:159-184 | a frame with a payload is complete with its last byte |
| WebSocketFrames.MessageRun | third-party/MyWebSocket/src/core/websocket_parser.cpp:168-184 | a message of any number of frames is delivered once, with the unmasked payloads in order |
| WebSocketFrames.Reassembly | third-party/MyWebSocket/src/core/websocket_parser.cpp:49-190 | any stream of fragmented messages, cut into buffers anywhere, is delivered message by message; only what ends in an empty frame waits for the next byte |
| WebSocketFrames.LimitEnforced | third-party/MyWebSocket/src/core/websocket_parser.cpp:133-138 | a payload length above 2^20 is refused with the first byte after the header, and no other is, for masked frames with any key as for unmasked ones, from any state between frames |
| WebSocketFrames.FrameHeader | third-party/MyWebSocket/src/core/WebSocket.cpp:209-241 | final bit, opcode and the shortest form of the length, highest octet first |
| WebSocketWire.HeaderOctets | third-party/MyWebSocket/src/core/WebSocket.cpp:209-241 | the headers are exactly the octets that section 5.2 of RFC 6455 describes, written out: flags and opcode, mask bit and shortest form of the length, highest octet first, and the key |
| WebSocketWire.FrameOctets | third-party/MyWebSocket/src/core/websocket_parser.cpp:49-190 | the encoded frames are exactly a header and the payload, masked bit by bit if the frame is |
| WebSocketWire.FrameDelivered | third-party/MyWebSocket/src/core/websocket_parser.cpp:49-190 | a final frame with a payload that arrives between messages is delivered at once as the plain text of what is on the wire |
| WebSocketWire.MaskedLetter | third-party/MyWebSocket/src/core/websocket_parser.cpp:142-148 | the octets 81 81 01 02 03 04 40 deliver the text A |
| WebSocketWire.FirstOctetFields | third-party/MyWebSocket/src/core/websocket_parser.cpp:62-77 | final bit, reserved bits and opcode of any first octet, and that a first frame starts a new payload |
| WebSocketFrames.ServerFrame | third-party/MyWebSocket/src/core/WebSocket.cpp:209-253 | the header and a payload of 1 to 2^20 octets parse back to one message with that opcode and payload, at once |
| Cards.ComposeInverse | src/game/card.h:80-99 | a composed card gives its colour and its function back, and no other card does |
| Cards.DecomposeFails | src/game/card.h:104-109 | taking a card apart gives the colour twice, so it undoes the composition exactly when function and colour are equal |
| Cards.CardSetCards | src/game/card.h:138-266 | the card set has 116 cards, all of them valid and none of them 0 |
| Cards.CardSetCopies | src/game/card.h:138-266 | how often each card is in the set: one 0 of each colour, two of each other number and of each function up to +4, four +4 and four colour changes without colour, and no other card |
| Cards.CardEffects | src/game/card.h:128-136 | which cards are function cards, which carry a penalty, and of how many cards |
| RoomRules.SeatNext | src/game/room.cpp:364-398 | moving the turn by one seat in a direction is the next place of the round |
| RoomRules.OffsetOfSeat | src/game/room.cpp:779-826 | the player who gets card number t is t mod n places after the dealer |
| RoomRules.DealtRounds | src/game/room.cpp:814-817 | after whole rounds everybody got the same number of cards |
| RoomRules.OnlyPenalties | src/game/room.cpp:699-739 | while a penalty is open whatever may be played, in turn or out of turn, is a penalty card |
| RoomRules.PenaltiesCount | src/game/room.cpp:498-504 | what penalty cards add up to is two for every +2 and four for every +4 |
| RoomRules.AcceptanceTable | src/game/room.cpp:678-751 | which card may follow which: out of turn only the very same card, if at all; in turn with no penalty open the same colour or function, a card without colour, or the colour asked for; on a coloured +2 any +2 and a +4 of its colour or of none; on a coloured +4 any +4; on a +4 or +2 without colour only the same card |
| RoomRules.CanPlayIsRule | src/game/room.cpp:678-751 | the cascade of tests is a rule on colours and functions alone |
| RoomRules.RuleSymmetric | src/game/room.cpp:746-750 | between coloured cards with no penalty open the rule is symmetric |
| RoomRules.PenaltyNotLess | src/game/room.cpp:699-739 | a penalty is only answered by one at least as large |
| RoomRules.DeckCopies | src/game/card.h:138-266 | the pile of a game holds every card of the set three times |
| RoomRules.HandsRemove | src/game/room.cpp:285-291 | the hands of the players who stay, and the hand of the one who leaves, are all the hands |
| Rooms.Room.GameStart | src/game/room.cpp:108-179 | the last winner deals, or somebody at the table; hands are empty, the pile is three card sets in any order, the direction is turned round |
| Rooms.Room.GameOver | src/game/room.cpp:181-206 | the winner and the direction are remembered and everything of the game is cleared |
| Rooms.Room.CursorMove | src/game/room.cpp:364-398 | the turn moves to (place of the base player, or of the turn, plus step) mod n |
| Rooms.Room.HeapDeal | src/game/room.cpp:401-417 | the top card, after reshuffling the history when the pile is empty; -1 exactly when there is no card anywhere; none is lost |
| Rooms.Room.DrawCards | src/game/room.cpp:606-619 | a deal of k adds min(k, pile + history) cards to that hand, and takes them from there |
| Rooms.Room.PlayerDealCard | src/game/room.cpp:568-652 | refused exactly when a player asks out of turn; the open penalty, or one card, or the punishment is dealt as far as there are cards; a regular deal closes the penalty and passes the turn |
| Rooms.Room.PlayerReportNoUno | src/game/room.cpp:655-676 | the reported player draws two, as far as there are cards, and cannot be reported again; the assertion that this player is at the table is met exactly when the marked player has not left |
| Rooms.Room.CheckPlay | src/game/room.cpp:430-476 | a play is accepted exactly when the card is in the hand, a colour is given for a card without one, and the rules let it follow: in turn with no penalty open that is the same colour or function, no colour, or the colour that was asked for; the failing branch of the rules is never reached |
| Rooms.Room.PlayableTable | src/game/room.cpp:429-476 | the whole condition for a play, out of turn and with a penalty open included, as a table over the colours and functions of the two cards |
| Rooms.StepTable | src/game/room.cpp:478-528 | a skip moves the turn by two, a reversal by one the other way, every other card by one |
| Rooms.PunishmentTable | src/game/room.cpp:530-550 | two cards for a call that was not due, and two for a last card that is no number |
| Rooms.Room.PlayerCardPlay | src/game/room.cpp:420-565 | refused without effect exactly when not playable; ends the game exactly when the only card of the hand, a number, is played without a call; else the turn goes to (place + step) mod n, the penalty grows by the card, the hand is not empty and has one card less plus the punishments as far as there are cards |
| Rooms.Room.PlayerLeave | src/game/room.cpp:273-362 | the hand goes under the pile; the turn stays with its player or passes to the neighbour of the leaving one; with one player left that one wins; the mark for reporting survives, and names somebody who has left exactly when it did before or names the leaving player |
| Rooms.Room.PlayLeaveReport | src/game/room.cpp:655-676 | from every state in which a player may play down to one card without calling: play, leave, and the next report does not meet its assertion |
| Rooms.Room.LeaveIdle | src/game/room.cpp:293-323 | between games only the seat goes; the turn can fall from -1 to -2, and is an index of a seat after the leave exactly when it was one before and did not belong to the leaving player at the last seat |
| Rooms.Room.TickDealing | src/game/room.cpp:779-825 | each due tick deals the top card, which is there, to the player whose turn it is, and after seven rounds it is the turn of the dealer: the asserts hold |
| Rooms.Room.TickDealer | src/game/room.cpp:826-871 | the dealer gets two cards more, at the interval of the dealing, and then the first card is awaited |
| Rooms.Room.TickFirstCard | src/game/room.cpp:872-918 | a card of the pile becomes the whole history and the last card, at the turn of the dealer, who has nine cards, everybody else seven, with no penalty open |
| Rooms.Room.DrawFirst | src/game/room.cpp:878-901 | none of the cards is lost, and the first card is a number unless 101 function cards were put back or at most one card is left in the pile |
| Rooms.Room.Enter | src/game/room.cpp:1160-1200 | enters exactly when no game is on, there is room, and the player is not in it, at the last seat and with an empty hand |
| Rooms.Room.AutoPlay | src/game/room.cpp:937-1002 | a player who took too long plays a card that is playable, or draws when no card of the hand fits; neither is ever refused |
| Rooms.Room.TickWait | src/game/room.cpp:919-1003 | below the threshold of its player, who may be offline, a turn ends by itself with a card that fits, or with a draw when none does; above it only the timer changes |
| Rooms.Room.Tick | src/game/room.cpp:776-1004 | in any state of a game a tick keeps all invariants and goes on in the phase or to the next one |
| Rooms.Room.PlayRequest | src/game/room.cpp:1643-1687 | a granted play has the effect of a play, anything else none, in any state, also during the dealing |
| Rooms.Room.DrawRequest | src/game/room.cpp:1698-1741 | in any state of a game, also during the dealing, exactly the player whose turn it is draws and passes the turn |
| Rooms.Room.ReportRequest | src/game/room.cpp:1752-1795 | exactly when somebody can be reported that player is punished; the assertion fails exactly for a player in a game after the marked player has left |
| Rooms.Room.LeaveRequest | src/game/room.cpp:1221-1270 | refused exactly while cards are being dealt; else exactly that seat goes |
| Rooms.Room.Run | src/game/room.cpp:752-1007 | whatever requests and ticks come in whatever order, until the last player has left: all cards are in the pile, the history and the hands, every open penalty is what the cards played add up to and stands on a penalty card, seats, players and the turn fit together, and the dealing is where its counter says; the run stops early only at a report after the marked player has left, so never when nobody leaves |
| Rooms.Room.Serve | src/game/room.cpp:752-1007 | one request or tick keeps all of this; a mark comes to name somebody who has left only when the marked player leaves, and an assertion fails only for a report of that mark |
| Rooms.OneMoreDealt | src/game/room.cpp:784-813 | one more card keeps the round robin: hand sizes are fixed by the distance from the dealer |
| Rooms.NextSeat | src/game/room.cpp:299-304 | the turn does move when the player who has it leaves |
| JsonRoundTrip.ScanChars | third-party/MyWebSocket/third-party/leptjson/leptjson.cpp:161-220 | a printed ASCII string, escapes included, is read back, whatever follows it |
| JsonRoundTrip.KeyReadsBack | third-party/MyWebSocket/third-party/leptjson/leptjson.cpp:573-579 | keys are printed without escapes: a key is read back exactly when it has no quote, backslash or control character |
| JsonRoundTrip.ParseInt | third-party/MyWebSocket/third-party/leptjson/leptjson.cpp:74-125 | every 32-bit integer is read back, up to the character that ends it |
| JsonRoundTrip.ParsePrint | third-party/MyWebSocket/third-party/leptjson/leptjson.cpp:300-311 | inside any longer text the parser reads a printed value back and stops exactly at its end |
| JsonRoundTrip.RoundTrip | third-party/MyWebSocket/third-party/leptjson/leptjson.cpp:590-594 | printing and then parsing gives the value back, for nulls, booleans, 32-bit integers, ASCII strings, and arrays and objects of them |
| JsonRoundTrip.InsertSorted | third-party/MyWebSocket/third-party/leptjson/leptjson.cpp:283 | adding a member keeps the keys sorted and different; an earlier member with the key stays |
| JsonRoundTrip.ParsedWellFormed | third-party/MyWebSocket/third-party/leptjson/leptjson.cpp:257-298 | objects that were parsed have sorted keys without repetition, at every depth |
| JsonContext.Text.StringifyString | third-party/MyWebSocket/third-party/leptjson/leptjson.cpp:508-533 | appends the escaped string |
| JsonContext.Text.StringifyValue | third-party/MyWebSocket/third-party/leptjson/leptjson.cpp:535-588 | appends the printed value, for any nesting |
| JsonContext.Context.ParseNumber | third-party/MyWebSocket/third-party/leptjson/leptjson.cpp:74-125 | the moving position accepts exactly the grammar of numbers and tells integers from doubles; too big is an integer beyond 64 bits, or a double that is rounded to infinity |
| JsonNumbers.DoubleEnd | third-party/MyWebSocket/third-party/leptjson/leptjson.cpp:110-116 | the bound for doubles is half a unit above the largest one, and as much below 2^1024, so exactly there rounding leads to infinity |
| JsonNumbers.SameNumber | third-party/MyWebSocket/third-party/leptjson/leptjson.cpp:110-116 | whether a number is too big does not depend on how many of its zeros are written |
| JsonNumbers.TenPowers | third-party/MyWebSocket/third-party/leptjson/leptjson.cpp:110-116 | 10^309 is the first power of ten that is too big |
| JsonNumbers.HugeNumber | third-party/MyWebSocket/third-party/leptjson/leptjson.cpp:74-125 | of the texts 1e300 to 1e309 exactly the last is refused |
| JsonContext.Context.ParseUnicode | third-party/MyWebSocket/third-party/leptjson/leptjson.cpp:186-200 | every escape of a code point, surrogate pairs included, is read as that code point and up to its last digit; what is not one gives the error the source gives; no value is above 0x10FFFF |
| JsonContext.Context.PushUtf8 | third-party/MyWebSocket/third-party/leptjson/leptjson.cpp:140-159 | appends the bytes that a reader of UTF-8 takes for the code point |
| JsonUnicode.DecodeEncode | third-party/MyWebSocket/third-party/leptjson/leptjson.cpp:140-159 | the bytes of every code point up to 0x10FFFF are decoded to that code point, whatever follows them |
| JsonUnicode.EncodingsApart | third-party/MyWebSocket/third-party/leptjson/leptjson.cpp:140-159 | no two code points have the same bytes, and none has the first bytes of another |
| JsonUnicode.EscapeValue | third-party/MyWebSocket/third-party/leptjson/leptjson.cpp:186-200 | the escape of a code point, one or two times four hexadecimal digits in either case, has that code point as its value |
| JsonUnicode.EscapeReadBack | third-party/MyWebSocket/third-party/leptjson/leptjson.cpp:127-200 | inside a string the escape of a code point is read as the bytes of that code point, and reading goes on behind it |
| JsonUnicode.LoneSurrogate | third-party/MyWebSocket/third-party/leptjson/leptjson.cpp:186-200 | the escape of a low surrogate that stands alone is accepted as that code point |
| JsonUnicode.ScalarUnless | third-party/MyWebSocket/third-party/leptjson/leptjson.cpp:186-200 | an accepted escape gives a surrogate exactly when it is a low surrogate that stands alone: only there the bytes are not those of a character |
| JsonContext.Context.ParseString | third-party/MyWebSocket/third-party/leptjson/leptjson.cpp:161-220 | the loop reads the string the grammar gives, or fails with its error |
| JsonContext.Context.ParseArray | third-party/MyWebSocket/third-party/leptjson/leptjson.cpp:222-255 | the loop reads the items the grammar gives, or fails with its error |
| JsonContext.Context.ParseObject | third-party/MyWebSocket/third-party/leptjson/leptjson.cpp:257-298 | the loop reads the members the grammar gives, or fails with its error |
| JsonContext.Context.ParseValue | third-party/MyWebSocket/third-party/leptjson/leptjson.cpp:300-311 | the recursive parser on its moving position ends, and gives the value, the end or the error of the grammar, which JsonGrammar.GrammarExact shows to be that of RFC 8259 |
| JsonContext.ParseText | third-party/MyWebSocket/third-party/leptjson/leptjson.cpp:331-349 | a text gives a value exactly when it begins, after white space, with a text for that value; a failure keeps its code only when the parser then stands at the end of the text; the stack of characters is left empty, as asserted, exactly when no string broke off after some characters |
| JsonGrammar.GrammarExact | third-party/MyWebSocket/third-party/leptjson/leptjson.cpp:40-311 | the parser reads a value from a position on exactly when a text of RFC 8259 for that value stands there, with any white space of the four characters, any form of numbers and any way to write characters |
| JsonGrammar.TextExact | third-party/MyWebSocket/third-party/leptjson/leptjson.cpp:331-349 | the same for a whole text with white space in front |
| JsonGrammar.BlankSkipped | third-party/MyWebSocket/third-party/leptjson/leptjson.cpp:50-56 | exactly a run of spaces, tabs, line feeds and carriage returns is skipped |
| JsonGrammar.NumYields | third-party/MyWebSocket/third-party/leptjson/leptjson.cpp:74-125 | a number in all its forms is read up to its end: an integer as its 32 lowest bits when it fits 64, another as its text when it is below the end of the doubles |
| JsonGrammar.NumRecovered | third-party/MyWebSocket/third-party/leptjson/leptjson.cpp:74-125 | whatever is read as a number is an optional sign, a whole part without leading zeros, an optional fraction and an optional exponent |
| JsonGrammar.PiecesRead | third-party/MyWebSocket/third-party/leptjson/leptjson.cpp:161-220 | a string in any mixture of characters, short escapes and code point escapes is read as its bytes |
| JsonGrammar.PiecesFound | third-party/MyWebSocket/third-party/leptjson/leptjson.cpp:161-220 | whatever is read as a string is such a mixture, so no character below 0x20 and no other escape is accepted |
| JsonGrammar.ShortTable | third-party/MyWebSocket/third-party/leptjson/leptjson.cpp:170-182 | the eight short escapes and the characters they stand for |
| JsonGrammar.HexTable | third-party/MyWebSocket/third-party/leptjson/leptjson.cpp:127-138 | the values of the hexadecimal digits, and that any letter is accepted |
| JsonGrammar.ProperPoint | third-party/MyWebSocket/third-party/leptjson/leptjson.cpp:186-200 | an escape whose digits are hexadecimal is accepted exactly when it is the escape of the code point it gives |
| JsonGrammar.OddEscape | third-party/MyWebSocket/third-party/leptjson/leptjson.cpp:127-138 | a case where they are not: the digits 00GZ are accepted, and denote no code point |
| JsonGrammar.KeyOrder | third-party/MyWebSocket/third-party/leptjson/leptjson.cpp:257-298 | the order of the members: the first character in which two keys differ decides |
| JsonGrammar.PrintedTree | third-party/MyWebSocket/third-party/leptjson/leptjson.cpp:508-588 | the printed form of a value is the text of a tree of that grammar with no white space, strings escaped and members in the order of their keys |
| JsonFailures.LeftOver | third-party/MyWebSocket/third-party/leptjson/leptjson.cpp:161-220 | characters of a failed string are left on the stack exactly when the text has an invalid escape behind at least one read character |
| JsonFailures.LetterLeftOver | third-party/MyWebSocket/third-party/leptjson/leptjson.cpp:331-349 | the string of a letter and an escape that does not exist leaves that letter on the stack, so the assertion at line 346 fails |
| JsonFailures.QuoteInKey | third-party/MyWebSocket/third-party/leptjson/leptjson.cpp:573-579 | an object whose key ends in a quote is printed as a text that is refused |

## Left out

- BignumDtoa.BignumDtoa: the double is given as significand, exponent and the flag for a closer lower neighbour, as they are taken from the bits of a double or a float; the rounding of the estimate is any error below its guard.
- BignumDtoa.GenerateCountedDigits: asks for at least one digit; the source would write in front of the buffer for none, and never asks for none.
- Bignums.Bignum.Square: asks that the square fits the capacity, as the source asserts; conversion from and to hexadecimal strings is not part of this model.
- FixedDtoa.FastFixedDtoa: the double is given as significand and exponent.
- Timers.Loop.TimerStart: the start counter does not wrap at 2^64, and callbacks are finite scripts of starts, stops, repeats, closes, changes of the repeat time and updates of the loop time; the union of heap links and queue links is two sets of fields, so that the code that depends on their overlap is not covered; the reference counts of active handles and the due-in query are left out.
- TimerHeap.Heap.Insert: the node count is below 2^32, the width of the field.
- ThreadPools.ThreadPool.Worker: no worker is forced to go on, so that work is done in the end is not claimed, only that somebody is there to do it; one event loop; starting and joining threads is left out.
- ThreadPools.ThreadPool.CancelUnlink: a request is not cancelled a second time between the two parts of its first cancellation, where the source would unlink it from a queue it has left.
- ThreadPools.ThreadPool.WorkDone: the loop takes the queue and reports it in one step; what its callbacks do comes after.
- WebSocketParser.Parser.Parse: what the completion callback does with the frame is left out; that it was called, and with what, is recorded. A length that does not fit a machine word and the overflow of the payload buffer do not arise, for lengths above 2^20 are refused.
- WebSocketFrames.Reassembly: control frames between the fragments of a message are out of scope, since the source ignores the opcode there, against section 5.4 of RFC 6455.
- JsonRoundTrip.RoundTrip: doubles are kept as the text of the number, since their conversion is floating-point arithmetic; octets from 0x80 on depend on the signedness of characters; keys need the condition of JsonRoundTrip.KeyReadsBack.
- JsonContext.ParseText: the assertion on the stack is a flag in the result; that asserting also moves the position, so that builds without assertions behave differently, is not modelled; text after a value is accepted, as in the source.
- JsonContext.Context.ParseNumber: the conversion of the text to a double is not computed and taken to round correctly; integers wrap at 32 bits as in the source.
- Rooms.Room.constructor: a room is for 2 to 20 players; the source answers other counts with an error and creates the room nevertheless.
- Rooms.Room.PlayerReportNoUno: the assertion that can fail is a flag in the result, and nothing changes then, where the source stops.
- Rooms.Room.LeaveIdle: the notification that reads the seat at the turn of an idle room is left out; when that index is in range is stated.
- Rooms.Room.AutoPlay: the colour that is chosen is one of the four; the source means the most frequent one of the hand, and does not always find it. The chance of not calling is any choice.
- Rooms.Room.StartRequest: who owns the room, who is ready and when players went offline are left out, and with them the dismissal of a room by a timeout.
- Rooms.RandomShuffle: a shuffle is any permutation, and a random choice any member; that they are random is not claimed.
- Notifications, statistics, sessions, logging and all input and output of the room, the HTTP server, the file reader, the database, configuration, routing and tokens are left out.
- The fast printer with cached powers, the conversion of strings to doubles, and the HTTP parser of the repository are left out: floating-point tables in the first two, a large generated machine in the last.
