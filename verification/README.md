# Verified model of the kernel C++ runtime's algorithmic core

This project models the parts of the runtime where correctness rests on an argument rather than on reading the code,
and proves what they promise. Machine words are numbers with explicit ranges, and every truncation or wrap-around of
the C++ code is written out. Code that updates objects or arrays in place is modelled by classes and methods that do
so too.

* **128-bit integers** (`Arith`, `Bits`, `Digits`, `QuotientDigit`, `KnuthM`, `KnuthD`, `Base128`, `Int128Digits`,
  `Int128Wide`, `Int128`). Knuth's Algorithms M and D of *The Art of Computer Programming*, volume 2, section 4.3.1,
  over 32-bit digit arrays of any length; the separate two-word division in base 2^64; and the multiplication,
  division, remainder, ceiling division and signed operators built on them. The compile-time switches
  `_STL_128_INTRINSICS` and `_STL_128_DIV_INTRINSICS` are a parameter (`Target`), so every result holds for every
  setting; an intrinsic is its arithmetic meaning.
* **Bit counts** (`BitUtils`). Leading and trailing zeros by binary search, and the parallel population count, against
  bit-by-bit definitions.
* **Binary heaps** (`Heap`). Push, pop with the hole sinking to the bottom, bottom-up building and sorting, for any
  strict weak order. The predicate is an object that counts its calls, so that the bounds of ISO/IEC 14882:2023 can be
  stated.
* **Versioned vectors** (`VersionedVector`). Views and iterators that notice later changes through a shared 32-bit
  change counter, over arbitrary runs of operations.
* **Pool allocation** (`AllocationLoops`, `Pool`, `PoolRuns`). The kernel allocator layer over a pool whose answers,
  and the new handler's, are given in advance. `Valid` carries a ledger: live blocks are exactly those granted and not
  freed. Whole runs of requests are related to the effects of the single requests.
* **Formatting** (`FormatArgs`, `ArgumentIds`, `FormatBuffer`). Type-erased arguments packed into one byte buffer, the
  automatic and manual argument indices of format strings, and the output buffers with and without a limit.
* **Durations** (`Ratios`, `Chrono`). Ratios in lowest terms and common periods; casts, floor, ceil and round across
  rational periods, and the steady clock, with every 64-bit overflow visible as a failure value.
* **String search** (`StringSearch`). Substring, character and character-class searches in both directions, the bitmap
  fast path, comparison and overlapping moves.

## What the proofs found

* The borrow repair of the base-2^64 division (`__msvc_int128.hpp:491-493`, `618-621` and `773-777`) can never be
  taken: with a two-word divisor the corrected trial quotient is already exact. `Int128Wide.DivideWide` proves it.
* `krealloc` of a live block with an old size of zero can never succeed, whatever the pool answers
  (`kmalloc.cpp:15-17` under `kmalloc.cpp:116-130`): the attempt is refused before the pool is asked, and the new
  handler is consulted until it refuses, so under a handler that always agrees the call never returns.
  `Pool.Pool.Realloc` and `AllocationLoops.RefusalMeaning` state it.
* `kcalloc` consults the new handler once more after `kmalloc` has already given up, so a handler that refuses once
  and then agrees can make `kmalloc` fail and `kcalloc` succeed. `AllocationLoops.CallocAloneSucceeds` says exactly
  when: the first usable answer of the pool comes after a refusal, and no two refusals in a row come before it.
* The clearing in `krecalloc` (`kmalloc.cpp:152-154`) is redundant after a resize, since the resized block is zeroed
  beyond the old contents already: `Pool.ZeroedTail`. It is needed when there was no old block.
* The quotient of two signed 128-bit values is exact for every pair but the minimum divided by -1, where the result is right
  only modulo 2^128: `Int128.SignedDivide`, with the condition in both directions.
* `make_heap` needs fewer than 2 n predicate calls, where the standard allows 3 n.

## Model

| member | source | states |
|---|---|---|
| KnuthM.RowStep | Microsoft.VisualC.Runtime/MSVC/14.51.36231/include/__msvc_int128.hpp:147-149 | one accumulator step: digit plus 2^32 times carry keeps the partial product of the row exact |
| KnuthM.MultiplyRow | Microsoft.VisualC.Runtime/MSVC/14.51.36231/include/__msvc_int128.hpp:145-151 | one row adds u times a digit at weight j into w, never overflowing 64 bits on the way (the carry stays a 32-bit digit), and touches no other digit |
| KnuthM.Multiply | Microsoft.VisualC.Runtime/MSVC/14.51.36231/include/__msvc_int128.hpp:131-153 | Algorithm M: value(w) = value(u) * value(v) for all digit counts, whatever w held before |
| QuotientDigit.FirstTrial | Microsoft.VisualC.Runtime/MSVC/14.51.36231/include/__msvc_int128.hpp:193-194 | the first trial quotient is never below the quotient of the three leading digits |
| QuotientDigit.RemainderOverflow | Microsoft.VisualC.Runtime/MSVC/14.51.36231/include/__msvc_int128.hpp:199-203 | leaving the loop because the trial remainder overflowed leaves a one-digit trial that fits |
| QuotientDigit.NotBelow | Microsoft.VisualC.Runtime/MSVC/14.51.36231/include/__msvc_int128.hpp:196-204 | the divisor does not go into the dividend more often than the final estimate |
| QuotientDigit.NotTwoAbove | Microsoft.VisualC.Runtime/MSVC/14.51.36231/include/__msvc_int128.hpp:196-204 | an estimate that fits the leading digits is at most one too large for the whole divisor |
| QuotientDigit.EstimateError | Microsoft.VisualC.Runtime/MSVC/14.51.36231/include/__msvc_int128.hpp:192-204 | Theorems A and B of section 4.3.1 in any base: true digit <= estimate <= true digit + 1 |
| KnuthD.EstimateDigit | Microsoft.VisualC.Runtime/MSVC/14.51.36231/include/__msvc_int128.hpp:192-204 | the correction loop runs at most twice and ends on the capped quotient of the leading digits, below 2^32 |
| KnuthD.WindowEstimate | Microsoft.VisualC.Runtime/MSVC/14.51.36231/include/__msvc_int128.hpp:192-204 | for a normalized divisor of n digits and a window of n + 1, that estimate is the true digit or one more |
| KnuthD.BorrowBound | Microsoft.VisualC.Runtime/MSVC/14.51.36231/include/__msvc_int128.hpp:209-212 | the borrow k stays a 32-bit digit and the 64-bit signed difference never overflows |
| KnuthD.SubtractProduct | Microsoft.VisualC.Runtime/MSVC/14.51.36231/include/__msvc_int128.hpp:206-215 | multiply-subtract leaves the exact difference: n digits in place and a signed top digit t |
| KnuthD.SignTells | Microsoft.VisualC.Runtime/MSVC/14.51.36231/include/__msvc_int128.hpp:217-219 | t is negative exactly when the estimate was one too large |
| KnuthD.AddBack | Microsoft.VisualC.Runtime/MSVC/14.51.36231/include/__msvc_int128.hpp:220-226 | adding back puts value(v) into the window with its carry, and changes nothing outside it |
| KnuthD.CarryCancels | Microsoft.VisualC.Runtime/MSVC/14.51.36231/include/__msvc_int128.hpp:220-226 | after one add-back the carry cancels the negative top digit |
| KnuthD.CorrectDigit | Microsoft.VisualC.Runtime/MSVC/14.51.36231/include/__msvc_int128.hpp:217-227 | whichever sign, the digit stored is the true one and the window holds the true remainder |
| KnuthD.DivideStep | Microsoft.VisualC.Runtime/MSVC/14.51.36231/include/__msvc_int128.hpp:191-228 | one step: old window = digit * v + new window, new window < v, top digit zero, rest untouched |
| KnuthD.ProgressStep | Microsoft.VisualC.Runtime/MSVC/14.51.36231/include/__msvc_int128.hpp:191-228 | the whole dividend stays accounted for when the window moves down one digit |
| KnuthD.Divide | Microsoft.VisualC.Runtime/MSVC/14.51.36231/include/__msvc_int128.hpp:180-231 | Algorithm D for every n >= 2 and every longer dividend: old u = q * v + new u with new u < v, upper digits zero, digits beyond the operands untouched |
| Int128Base.SplitWord | Microsoft.VisualC.Runtime/MSVC/14.51.36231/include/__msvc_int128.hpp:71-75 | a word cut at bit 64 - c: the two parts end up in different words of the shifted pair |
| Int128Base.LeftShiftValue | Microsoft.VisualC.Runtime/MSVC/14.51.36231/include/__msvc_int128.hpp:66-75 | the two-word formula is multiplication by 2^c modulo 2^128, and names the digit that falls out |
| Int128Base.RightShiftValue | Microsoft.VisualC.Runtime/MSVC/14.51.36231/include/__msvc_int128.hpp:90-99 | the two-word formula is division by 2^c, rounded down |
| Int128Base.SignedShiftValue | Microsoft.VisualC.Runtime/MSVC/14.51.36231/include/__msvc_int128.hpp:1241-1250 | below 64 bits the signed shift is floor division of the signed reading |
| Int128Base.SignedShiftWhole | Microsoft.VisualC.Runtime/MSVC/14.51.36231/include/__msvc_int128.hpp:1235-1239 | from 64 bits on, the sign-filled high word gives floor division too |
| Int128Base.AddCarry64 | Microsoft.VisualC.Runtime/MSVC/14.51.36231/include/__msvc_int128.hpp:102-114 | the comparison after a wrapping sum is the carry: sum + 2^64 * carry is the true sum, carry-in included |
| Int128Base.SubBorrow64 | Microsoft.VisualC.Runtime/MSVC/14.51.36231/include/__msvc_int128.hpp:116-128 | the comparison after a wrapping difference is the borrow, borrow-in included |
| Int128Base.Base128.LeftShift | Microsoft.VisualC.Runtime/MSVC/14.51.36231/include/__msvc_int128.hpp:54-76 | for every count below 128: value * 2^count modulo 2^128 |
| Int128Base.Base128.UnsignedRightShift | Microsoft.VisualC.Runtime/MSVC/14.51.36231/include/__msvc_int128.hpp:78-100 | for every count below 128: value / 2^count rounded down |
| Int128Base.Base128.SignedRightShift | Microsoft.VisualC.Runtime/MSVC/14.51.36231/include/__msvc_int128.hpp:1230-1251 | for every count below 128: floor of the signed value by 2^count, negatives included |
| Int128Base.Base128.Increment | Microsoft.VisualC.Runtime/MSVC/14.51.36231/include/__msvc_int128.hpp:374-379 | adds one modulo 2^128 across the words |
| Int128Base.Base128.Decrement | Microsoft.VisualC.Runtime/MSVC/14.51.36231/include/__msvc_int128.hpp:386-391 | subtracts one modulo 2^128 across the words |
| Int128Base.Base128.Add | Microsoft.VisualC.Runtime/MSVC/14.51.36231/include/__msvc_int128.hpp:1312-1316 | sum modulo 2^128 through the carry |
| Int128Base.Base128.Subtract | Microsoft.VisualC.Runtime/MSVC/14.51.36231/include/__msvc_int128.hpp:1330-1334 | difference modulo 2^128 through the borrow |
| Int128Base.Base128.Negate | Microsoft.VisualC.Runtime/MSVC/14.51.36231/include/__msvc_int128.hpp:1297-1299 | two's complement negation |
| Int128Base.Base128.StripNegative | Microsoft.VisualC.Runtime/MSVC/14.51.36231/include/__msvc_int128.hpp:1341-1346 | leaves the magnitude (2^127 for the minimum) and toggles the flag exactly for negatives |
| Int128Base.SignBit | Microsoft.VisualC.Runtime/MSVC/14.51.36231/include/__msvc_int128.hpp:1342-1344 | bit 63 of the high word is the sign, and negating a negative pair gives its magnitude |
| Int128Digits.UMul128 | Microsoft.VisualC.Runtime/MSVC/14.51.36231/include/__msvc_int128.hpp:155-178 | the full 128-bit product of two words |
| Int128Digits.ShiftedDigits | Microsoft.VisualC.Runtime/MSVC/14.51.36231/include/__msvc_int128.hpp:253-268 | the three 32-bit digits cut from a shifted word make up the shifted word, a shift of zero included |
| Int128Digits.ShiftedPair | Microsoft.VisualC.Runtime/MSVC/14.51.36231/include/__msvc_int128.hpp:253-263 | the five digits prepared for Algorithm D are the shifted two-word dividend |
| Int128Digits.NormalizedWord | Microsoft.VisualC.Runtime/MSVC/14.51.36231/include/__msvc_int128.hpp:243-268 | shifting by the leading zeros fills the divisor's top bit and loses nothing |
| Int128Digits.UnshiftValue | Microsoft.VisualC.Runtime/MSVC/14.51.36231/include/__msvc_int128.hpp:275 | joining the two low digits shifted back undoes the normalization of the remainder |
| Int128Digits.ShortDivide | Microsoft.VisualC.Runtime/MSVC/14.51.36231/include/__msvc_int128.hpp:244-251 | one schoolbook step by a 32-bit divisor |
| Int128Digits.DivideByNormalized | Microsoft.VisualC.Runtime/MSVC/14.51.36231/include/__msvc_int128.hpp:253-278 | the Algorithm D path of the 128-by-64 division, exact for every divisor of more than 32 bits |
| Int128Digits.UDiv128 | Microsoft.VisualC.Runtime/MSVC/14.51.36231/include/__msvc_int128.hpp:233-279 | 128-by-64 division: dividend = quotient * divisor + remainder, remainder < divisor, on both paths |
| Int128Wide.TrialStart | Microsoft.VisualC.Runtime/MSVC/14.51.36231/include/__msvc_int128.hpp:456-460 | subtracting the divisor's high word first makes the 128-by-64 division a valid first trial of up to two words |
| Int128Wide.TrialTooLarge | Microsoft.VisualC.Runtime/MSVC/14.51.36231/include/__msvc_int128.hpp:462-478 | a trial the test rejects is above the true quotient; the next one keeps the invariant |
| Int128Wide.TrialFits | Microsoft.VisualC.Runtime/MSVC/14.51.36231/include/__msvc_int128.hpp:466-470 | a trial the test accepts is the exact quotient: with two words the estimate has no error |
| Int128Wide.TrialOverflow | Microsoft.VisualC.Runtime/MSVC/14.51.36231/include/__msvc_int128.hpp:474-477 | leaving because the remainder wrapped also leaves the exact one-word quotient |
| Int128Wide.EstimateQuotient | Microsoft.VisualC.Runtime/MSVC/14.51.36231/include/__msvc_int128.hpp:456-480 | the correction loop in base 2^64 ends on the exact one-word quotient |
| Int128Wide.MultiplyPair | Microsoft.VisualC.Runtime/MSVC/14.51.36231/include/__msvc_int128.hpp:610-615 | the three-word product of one word and two, its top word never wrapping |
| Int128Wide.SubtractQuotient | Microsoft.VisualC.Runtime/MSVC/14.51.36231/include/__msvc_int128.hpp:610-621 | the final borrow is set exactly when the quotient is one too large, and the repair gives the exact quotient and remainder |
| Int128Wide.BorrowTells | Microsoft.VisualC.Runtime/MSVC/14.51.36231/include/__msvc_int128.hpp:616-621 | what the borrow of the three-word difference says about the quotient |
| Int128Wide.NormalizedPair | Microsoft.VisualC.Runtime/MSVC/14.51.36231/include/__msvc_int128.hpp:576-577 | shifting by the leading zeros of the high word fills the top bit and loses nothing |
| Int128Wide.SpilledDigit | Microsoft.VisualC.Runtime/MSVC/14.51.36231/include/__msvc_int128.hpp:578-579 | the third digit and the two shifted words hold the whole shifted dividend |
| Int128Wide.ScaledDivision | Microsoft.VisualC.Runtime/MSVC/14.51.36231/include/__msvc_int128.hpp:576-659 | dividing the shifted operands gives the same quotient and the shifted remainder |
| Int128Wide.DivideWide | Microsoft.VisualC.Runtime/MSVC/14.51.36231/include/__msvc_int128.hpp:571-621 | the whole base-2^64 block: exact quotient and shifted remainder, and its borrow repair never fires |
| Int128.Multiply | Microsoft.VisualC.Runtime/MSVC/14.51.36231/include/__msvc_int128.hpp:398-404 | the product modulo 2^128 |
| Int128.LongDivision | Microsoft.VisualC.Runtime/MSVC/14.51.36231/include/__msvc_int128.hpp:407-423 | dividing the words one after the other divides the pair |
| Int128.DivideByDigit | Microsoft.VisualC.Runtime/MSVC/14.51.36231/include/__msvc_int128.hpp:407-415 | exact quotient and remainder by a 32-bit divisor |
| Int128.DivideByWord | Microsoft.VisualC.Runtime/MSVC/14.51.36231/include/__msvc_int128.hpp:417-423 | exact quotient and remainder by a 64-bit divisor |
| Int128.DivisorDigits | Microsoft.VisualC.Runtime/MSVC/14.51.36231/include/__msvc_int128.hpp:496-517 | the digits kept of the shifted divisor are normalized and lose nothing, three or four of them |
| Int128.DividendTop | Microsoft.VisualC.Runtime/MSVC/14.51.36231/include/__msvc_int128.hpp:499-525 | the precondition of Algorithm D holds for every dividend here |
| Int128.DivideDigits | Microsoft.VisualC.Runtime/MSVC/14.51.36231/include/__msvc_int128.hpp:623-657 | the base-2^32 branch: exact quotient and shifted remainder with three- and four-digit divisors |
| Int128.SmallQuotient | Microsoft.VisualC.Runtime/MSVC/14.51.36231/include/__msvc_int128.hpp:426-432 | where the divisor's high word is at least the dividend's, quotient and remainder are what the shortcuts return |
| Int128.DivideTwoWords | Microsoft.VisualC.Runtime/MSVC/14.51.36231/include/__msvc_int128.hpp:446-529 | both branches of the intrinsics switch give the same exact quotient and remainder |
| Int128.Divide | Microsoft.VisualC.Runtime/MSVC/14.51.36231/include/__msvc_int128.hpp:424-530 | floor quotient of every pair with a nonzero divisor, on every path and for every switch setting |
| Int128.Modulo | Microsoft.VisualC.Runtime/MSVC/14.51.36231/include/__msvc_int128.hpp:545-661 | the matching remainder, shifted back, on every path and for every switch setting |
| Int128.SmallCeiling | Microsoft.VisualC.Runtime/MSVC/14.51.36231/include/__msvc_int128.hpp:693-713 | the shortcuts of the ceiling division, whose 64-bit increment cannot wrap |
| Int128.RoundUp | Microsoft.VisualC.Runtime/MSVC/14.51.36231/include/__msvc_int128.hpp:817-819 | the final increment adds one without wrapping |
| Int128.CeilingIsLeast | Microsoft.VisualC.Runtime/MSVC/14.51.36231/include/__msvc_int128.hpp:692-822 | the ceiling is at most t exactly when t times the divisor reaches the dividend |
| Int128.DivCeil | Microsoft.VisualC.Runtime/MSVC/14.51.36231/include/__msvc_int128.hpp:692-822 | the least q with num <= q * den on every path and for every switch setting; the final increment is never applied to the largest value |
| Int128.TruncatedDivision | Microsoft.VisualC.Runtime/MSVC/14.51.36231/include/__msvc_int128.hpp:1404-1448 | truncating division: a = q * b + r, |r| < |b|, r with the sign of a |
| Int128.SignedMultiply | Microsoft.VisualC.Runtime/MSVC/14.51.36231/include/__msvc_int128.hpp:1348-1357 | the signed product modulo 2^128, and the product itself whenever it fits |
| Int128.QuotientRange | Microsoft.VisualC.Runtime/MSVC/14.51.36231/include/__msvc_int128.hpp:1404-1413 | the truncated quotient of two signed values fits except for the minimum divided by -1 |
| Int128.MagnitudeQuotient | Microsoft.VisualC.Runtime/MSVC/14.51.36231/include/__msvc_int128.hpp:1404-1413 | dividing the magnitudes and applying the sign of the product is truncating division |
| Int128.MagnitudeRemainder | Microsoft.VisualC.Runtime/MSVC/14.51.36231/include/__msvc_int128.hpp:1434-1448 | the remainder of the magnitudes with the sign of the dividend is the truncated remainder and always fits |
| Int128.SignedDivide | Microsoft.VisualC.Runtime/MSVC/14.51.36231/include/__msvc_int128.hpp:1404-1413 | truncating division of every pair; exact if and only if it is not the minimum by -1, and then correct modulo 2^128 |
| Int128.SignedModulo | Microsoft.VisualC.Runtime/MSVC/14.51.36231/include/__msvc_int128.hpp:1434-1448 | the truncated remainder exactly, for the minimum as either operand too |
| Int128.SignedIdentity | Microsoft.VisualC.Runtime/MSVC/14.51.36231/include/__msvc_int128.hpp:1404-1448 | quotient and remainder fit together again modulo 2^128, the overflowing pair included |
| BitUtils.LeadingZerosBitLength | Microsoft.VisualC.Runtime/MSVC/14.51.36231/include/__msvc_bit_utils.hpp:38-52 | the bit-by-bit leading-zero count and the position of the top bit add up to the width |
| BitUtils.LeadingZerosRange | Microsoft.VisualC.Runtime/MSVC/14.51.36231/include/__msvc_bit_utils.hpp:38-52 | what the count says about the size of a word: zero bits down to the highest set one, the whole width for zero |
| BitUtils.CountlZeroFallback | Microsoft.VisualC.Runtime/MSVC/14.51.36231/include/__msvc_bit_utils.hpp:38-52 | the binary search equals the bit-by-bit count, for every power-of-two width and every value, zero included |
| BitUtils.TrailingMask | Microsoft.VisualC.Runtime/MSVC/14.51.36231/include/__msvc_bit_utils.hpp:149 | ~x & (x - 1) is ones exactly at the trailing zeros, zero included |
| BitUtils.CountrZeroFallback | Microsoft.VisualC.Runtime/MSVC/14.51.36231/include/__msvc_bit_utils.hpp:147-150 | the trailing-zero count equals the bit-by-bit count: nothing is set below it and the next bit is; the width for zero |
| BitUtils.TrailingZerosMeaning | Microsoft.VisualC.Runtime/MSVC/14.51.36231/include/__msvc_bit_utils.hpp:147-150 | the bit-by-bit count is the place of the lowest set bit |
| BitUtils.PairStep | Microsoft.VisualC.Runtime/MSVC/14.51.36231/include/__msvc_bit_utils.hpp:167 | the first step leaves the count of every bit pair |
| BitUtils.NibbleStep | Microsoft.VisualC.Runtime/MSVC/14.51.36231/include/__msvc_bit_utils.hpp:168-169 | the second step leaves the count of every nibble |
| BitUtils.ByteStep | Microsoft.VisualC.Runtime/MSVC/14.51.36231/include/__msvc_bit_utils.hpp:170 | the third step leaves the count of every byte, the nibble sums not disturbing each other |
| BitUtils.SumInTopByte | Microsoft.VisualC.Runtime/MSVC/14.51.36231/include/__msvc_bit_utils.hpp:171-172 | the multiply puts the byte sum in the top byte and what lies below never carries into it |
| BitUtils.TopByte | Microsoft.VisualC.Runtime/MSVC/14.51.36231/include/__msvc_bit_utils.hpp:171-174 | truncating to the word and shifting extracts that sum |
| BitUtils.MaskConstants | Microsoft.VisualC.Runtime/MSVC/14.51.36231/include/__msvc_bit_utils.hpp:167-172 | the recursively defined masks are the constants of the code |
| BitUtils.MasksTruncate | Microsoft.VisualC.Runtime/MSVC/14.51.36231/include/__msvc_bit_utils.hpp:166-172 | the constants cut down to n bytes are the masks of a word of n bytes, for every n up to 8 |
| BitUtils.MaskQuotients | Microsoft.VisualC.Runtime/MSVC/14.51.36231/include/__msvc_bit_utils.hpp:166-172 | each mask of n bytes is the all-ones word divided by its repeated group |
| BitUtils.PopCountMeaning | Microsoft.VisualC.Runtime/MSVC/14.51.36231/include/__msvc_bit_utils.hpp:155-176 | the bit-by-bit count is the number of places holding a one |
| BitUtils.PopcountFallback | Microsoft.VisualC.Runtime/MSVC/14.51.36231/include/__msvc_bit_utils.hpp:155-176 | the parallel count equals the bit-by-bit count for every word of up to 31 bytes, every conversion to the word type written out; only the multiplication wraps |
| Heap.Comparison.Holds | Microsoft.VisualC.Runtime/MSVC/14.51.36231/include/__msvc_heap_algorithms.hpp:26-27 | answers as the predicate does and counts the call |
| Heap.ClimbStep | Microsoft.VisualC.Runtime/MSVC/14.51.36231/include/__msvc_heap_algorithms.hpp:26-31 | pulling a smaller parent down keeps the order everywhere away from the hole |
| Heap.PushHeapByIndex | Microsoft.VisualC.Runtime/MSVC/14.51.36231/include/__msvc_heap_algorithms.hpp:22-34 | the value climbs to its place, at most to the top: subtree heap, same elements, nothing outside changed, at most one predicate call a level |
| Heap.SinkStep | Microsoft.VisualC.Runtime/MSVC/14.51.36231/include/__msvc_heap_algorithms.hpp:69-76 | moving the larger child up keeps the order everywhere but at that child |
| Heap.LargerChild | Microsoft.VisualC.Runtime/MSVC/14.51.36231/include/__msvc_heap_algorithms.hpp:70-73 | exactly one predicate call finds a child no smaller than its sibling, in bounds |
| Heap.SinkToBottom | Microsoft.VisualC.Runtime/MSVC/14.51.36231/include/__msvc_heap_algorithms.hpp:66-81 | the hole reaches a leaf inside the range with at most one comparison a level |
| Heap.PopHeapHoleByIndex | Microsoft.VisualC.Runtime/MSVC/14.51.36231/include/__msvc_heap_algorithms.hpp:57-84 | with both child subtrees heaps, the subtree at the hole becomes one with the value in it; nothing outside changes; at most 2 * height comparisons |
| Heap.LevelBelowHeight | Microsoft.VisualC.Runtime/MSVC/14.51.36231/include/__msvc_heap_algorithms.hpp:66-83 | no node of a subtree is deeper than its height |
| Heap.HeightOfNode | Microsoft.VisualC.Runtime/MSVC/14.51.36231/include/__msvc_heap_algorithms.hpp:68-76 | height follows the leftmost path |
| Heap.LogIsLogarithm | Microsoft.VisualC.Runtime/MSVC/14.51.36231/include/__msvc_heap_algorithms.hpp:25-31 | the logarithm used in the bounds is the rounded-down binary logarithm |
| Heap.HeapMeaning | Microsoft.VisualC.Runtime/MSVC/14.51.36231/include/__msvc_heap_algorithms.hpp:97-105 | the heap property is that no element is below either of its children |
| Heap.RootIsLargest | Microsoft.VisualC.Runtime/MSVC/14.51.36231/include/__msvc_heap_algorithms.hpp:97-105 | no element of a heap is above its root |
| Heap.PushHeap | Microsoft.VisualC.Runtime/MSVC/14.51.36231/include/__msvc_heap_algorithms.hpp:37-48 | heap of n from heap of n - 1, a permutation, at most log2 n comparisons ([push.heap]) |
| Heap.PopHeap | Microsoft.VisualC.Runtime/MSVC/14.51.36231/include/__msvc_heap_algorithms.hpp:98-112 | the root, which nothing exceeds, goes last; the rest is a heap; at most 2 log2(n - 1) comparisons ([pop.heap]) |
| Heap.SumHeightsBound | Microsoft.VisualC.Runtime/MSVC/14.51.36231/include/__msvc_heap_algorithms.hpp:121-131 | the heights of all nodes sum to less than the number of elements |
| Heap.BuildStep | Microsoft.VisualC.Runtime/MSVC/14.51.36231/include/__msvc_heap_algorithms.hpp:125-130 | each reheaped node extends the part that is a heap |
| Heap.MakeHeap | Microsoft.VisualC.Runtime/MSVC/14.51.36231/include/__msvc_heap_algorithms.hpp:121-131 | any input becomes a heap, permuted, with fewer than 2 n and so at most 3 n comparisons ([make.heap]) |
| Heap.SortStep | Microsoft.VisualC.Runtime/MSVC/14.51.36231/include/algorithm:7813-7818 | popping a prefix extends the sorted tail |
| Heap.SortHeap | Microsoft.VisualC.Runtime/MSVC/14.51.36231/include/algorithm:7813-7818 | popping every shrinking prefix sorts a heap, within 2 n log2 n comparisons |
| Heap.HeapSort | Microsoft.VisualC.Runtime/MSVC/14.51.36231/include/__msvc_heap_algorithms.hpp:97-131 | building a heap from any sequence and popping every shrinking prefix leaves it sorted, permuted and untouched beyond its end, within 3 n + 2 n log2 n predicate calls |
| VersionedVector.Vector.IncrementCounter | Microsoft.VisualC.Runtime/MSVC/14.51.36231/include/collection.h:176-181 | every reader is left detectably stale: behind the live counter by the number of mutations, or on a replaced counter stuck at its largest value |
| VersionedVector.CounterTellsStaleness | Microsoft.VisualC.Runtime/MSVC/14.51.36231/include/collection.h:75-79 | the counter comparison tells exactly whether a mutation was attempted since the reader was created; otherwise the contents are those of its creation |
| VersionedVector.Vector.SetAt | Microsoft.VisualC.Runtime/MSVC/14.51.36231/include/collection.h:655-665 | exactly the position given changes, or out of bounds from the size on with the contents kept; the attempt is counted even when it fails, and every reader stays tracked |
| VersionedVector.Vector.InsertAt | Microsoft.VisualC.Runtime/MSVC/14.51.36231/include/collection.h:667-679 | positions below the index stay, the item is at it and those from it on move up by one; out of bounds beyond the size, else out of memory at 2^31 - 1 elements, with the contents kept; the attempt is counted even when it fails, and every reader stays tracked |
| VersionedVector.Vector.Append | Microsoft.VisualC.Runtime/MSVC/14.51.36231/include/collection.h:681-693 | all positions stay and the item is at the old size; out of memory at 2^31 - 1 elements; the attempt is counted even when it fails, and every reader stays tracked |
| VersionedVector.Vector.RemoveAt | Microsoft.VisualC.Runtime/MSVC/14.51.36231/include/collection.h:695-705 | positions below the index stay and those above it move down by one; out of bounds from the size on; the attempt is counted even when it fails, and every reader stays tracked |
| VersionedVector.Vector.RemoveAtEnd | Microsoft.VisualC.Runtime/MSVC/14.51.36231/include/collection.h:707-717 | all positions but the last stay; out of bounds when empty; the attempt is counted even when it fails, and every reader stays tracked |
| VersionedVector.Vector.Clear | Microsoft.VisualC.Runtime/MSVC/14.51.36231/include/collection.h:719-727 | emptied, always; the attempt is counted even when it fails, and every reader stays tracked |
| VersionedVector.Vector.ReplaceAll | Microsoft.VisualC.Runtime/MSVC/14.51.36231/include/collection.h:729-739 | the contents are the items given; more than 2^31 - 1 of them are refused with the contents kept; the attempt is counted even when it fails, and every reader stays tracked |
| VersionedVector.Vector.GetView | Microsoft.VisualC.Runtime/MSVC/14.51.36231/include/collection.h:651-653 | a view on the current contents, tracked from now on and ready to be read |
| VersionedVector.Vector.First | Microsoft.VisualC.Runtime/MSVC/14.51.36231/include/collection.h:623-625 | an iterator on the current contents, tracked from now on and ready to be read |
| VersionedVector.VectorGetMany | Microsoft.VisualC.Runtime/MSVC/14.51.36231/include/collection.h:288-302 | copies min(rest, capacity) elements from the start index and leaves the rest of the destination alone |
| VersionedVector.VectorView.GetAt | Microsoft.VisualC.Runtime/MSVC/14.51.36231/include/collection.h:472-478 | ChangedState exactly when stale, else the element of the contents at creation, else out of bounds |
| VersionedVector.VectorView.Size | Microsoft.VisualC.Runtime/MSVC/14.51.36231/include/collection.h:480-486 | ChangedState exactly when stale, else the size at creation |
| VersionedVector.VectorView.GetMany | Microsoft.VisualC.Runtime/MSVC/14.51.36231/include/collection.h:496-502 | ChangedState exactly when stale, else out of bounds or the block of the contents at creation; nothing else of the destination is written |
| VersionedVector.VectorView.First | Microsoft.VisualC.Runtime/MSVC/14.51.36231/include/collection.h:466-470 | a stale view gives no iterator; a current one gives an iterator over the same contents |
| VersionedVector.VectorIterator.Current | Microsoft.VisualC.Runtime/MSVC/14.51.36231/include/collection.h:323-331 | ChangedState exactly when stale, else the element of the contents at creation |
| VersionedVector.VectorIterator.HasCurrent | Microsoft.VisualC.Runtime/MSVC/14.51.36231/include/collection.h:333-339 | ChangedState exactly when stale, else whether elements are left |
| VersionedVector.VectorIterator.MoveNext | Microsoft.VisualC.Runtime/MSVC/14.51.36231/include/collection.h:341-348 | advances by one inside the contents at creation; a failed call does not move |
| VersionedVector.VectorIterator.GetMany | Microsoft.VisualC.Runtime/MSVC/14.51.36231/include/collection.h:350-358 | delivers the next block and advances past exactly that block; nothing else of the destination is written |
| VersionedVector.ToVector | Microsoft.VisualC.Runtime/MSVC/14.51.36231/include/collection.h:2089-2109 | copying out block by block gives the whole contents at creation, or ChangedState exactly when stale |
| VersionedVector.Walk | Microsoft.VisualC.Runtime/MSVC/14.51.36231/include/collection.h:323-348 | walking an iterator to its end gives the rest of the contents at creation, or ChangedState |
| VersionedVector.Run | Microsoft.VisualC.Runtime/MSVC/14.51.36231/include/collection.h:176-181 | any run of mutators, views and iterators keeps every reader tracked, across any number of counter replacements |
| VersionedVector.RemoveUndoesInsert | Microsoft.VisualC.Runtime/MSVC/14.51.36231/include/collection.h:667-705 | removing what was inserted, and inserting what was removed, gives the contents back |
| VersionedVector.RemoveAtEndUndoesAppend | Microsoft.VisualC.Runtime/MSVC/14.51.36231/include/collection.h:681-717 | removing at the end undoes appending and the other way round; both are the indexed operations at the last place |
| VersionedVector.RunsCompose | Microsoft.VisualC.Runtime/MSVC/14.51.36231/include/collection.h:176-181 | the contents and the mutations of a run are those of its parts, one after the other; a run of readers changes nothing |
| VersionedVector.SingleEvent | Microsoft.VisualC.Runtime/MSVC/14.51.36231/include/collection.h:176-181 | a run of one mutation applies it if it succeeds and counts it either way |
| VersionedVector.ReadAfterRun | Microsoft.VisualC.Runtime/MSVC/14.51.36231/include/collection.h:472-478 | after any run a view's read fails with ChangedState if and only if a mutator was attempted since its creation; otherwise it gives the element of the contents at creation, or out of bounds beyond them |
| VersionedVector.WalkAfterRun | Microsoft.VisualC.Runtime/MSVC/14.51.36231/include/collection.h:304-348 | after any run an iterator read to its end gives ChangedState if and only if a mutator was attempted since its creation, and otherwise the rest of the contents at creation |
| VersionedVector.ReadBetweenRuns | Microsoft.VisualC.Runtime/MSVC/14.51.36231/include/collection.h:472-478 | a view taken after any run and read after any further one gives ChangedState if and only if the further run attempted a mutation, and otherwise the contents between the runs |
| VersionedVector.WalkBetweenRuns | Microsoft.VisualC.Runtime/MSVC/14.51.36231/include/collection.h:304-348 | the same for an iterator of the vector, walked to its end |
| VersionedVector.WalkViewBetweenRuns | Microsoft.VisualC.Runtime/MSVC/14.51.36231/include/collection.h:466-470 | the same for an iterator of a view |
| VersionedVector.CopyBetweenRuns | Microsoft.VisualC.Runtime/MSVC/14.51.36231/include/collection.h:2089-2109 | the same for copying a view out |
| Pool.GuardIsExact | Musa.Runtime/kext/kmalloc.cpp:69 | the division guard passes exactly when count * size, computed without bounds, is at most _HEAP_MAXREQ, and then the product does not wrap |
| AllocationLoops.AllocationMeaning | Musa.Runtime/kext/kmalloc.cpp:44-58 | the retry loop succeeds with an answer exactly when it is usable at an attempt the handler let it reach |
| AllocationLoops.ServedAttempt | Musa.Runtime/kext/kmalloc.cpp:44-58 | the same over the answers: a block of the size at a free address other than null, after as many agreements of the handler as attempts failed |
| AllocationLoops.AllocationConsumes | Musa.Runtime/kext/kmalloc.cpp:44-58 | what an allocation uses up: k + 1 answers of the pool and k of the handler, or k + 1 when the handler refuses |
| AllocationLoops.HandlerShrinks | Musa.Runtime/kext/kmalloc.cpp:52-57 | each retry uses up an answer of the handler |
| AllocationLoops.ZeroedUnfolds | Musa.Runtime/kext/kmalloc.cpp:75-92 | the two nested loops, attempt by attempt: a failed attempt is followed by another after a yes, or after a no and then a yes |
| AllocationLoops.ZeroedMeaning | Musa.Runtime/kext/kmalloc.cpp:75-92 | calloc succeeds with an answer exactly when it is usable at an attempt before which all fail and the handler agrees often enough without refusing twice in a row |
| AllocationLoops.CallocAloneSucceeds | Musa.Runtime/kext/kmalloc.cpp:44-92 | malloc fails where calloc succeeds exactly when the usable attempt that calloc reaches comes after a refusal of the handler |
| AllocationLoops.RefusalMeaning | Musa.Runtime/kext/kmalloc.cpp:116-130 | with n agreements in front the handler is asked n + 1 times: only a refusal ends the retries of a resize that never asks the pool |
| AllocationLoops.CallocIsNoWorse | Musa.Runtime/kext/kmalloc.cpp:75-92 | what malloc can get, calloc gets |
| AllocationLoops.CallocRetriesAfterRefusal | Musa.Runtime/kext/kmalloc.cpp:75-92 | the shortest case: one refusal and then an agreement make only malloc fail |
| Pool.Pool.ExReallocatePoolWithTag | Musa.Runtime/kext/kmalloc.cpp:7-30 | success keeps the first min(old, new) bytes, zeroes the rest and frees the old block once; failure, and an old size of zero, change nothing |
| Pool.Pool.ExFreePoolWithTag | Musa.Runtime/kext/kmalloc.cpp:25 | one live block with its tag goes, and is entered in the ledger once |
| Pool.Pool.Malloc | Musa.Runtime/kext/kmalloc.cpp:32-59 | a new block of exactly the size (one byte for zero) under the tag, or null with ENOMEM; other blocks untouched; too large a request asks nobody |
| Pool.Pool.Calloc | Musa.Runtime/kext/kmalloc.cpp:61-93 | a new block of count * size zero bytes, one if that is zero, or null with ENOMEM; other blocks untouched; a product over _HEAP_MAXREQ asks nobody |
| Pool.Pool.Realloc | Musa.Runtime/kext/kmalloc.cpp:95-131 | resize keeps the first min(old, new) bytes, zeroes the rest and frees the old block once; a failed nonzero resize leaves every block alone; succeeds exactly when the allocation does, and with an old size of zero never, without asking the pool |
| Pool.Pool.Recalloc | Musa.Runtime/kext/kmalloc.cpp:133-157 | a block of count * oldSize bytes becomes one of count * newSize bytes, each kept where both have it and zero beyond; a new one is all zeros; the guard is on count * newSize |
| Pool.ReplacedBytes | Musa.Runtime/kext/kmalloc.cpp:20-27 | byte by byte, what replacing a block by its resized copy leaves |
| Pool.Pool.Transfer | Musa.Runtime/kext/kmalloc.cpp:22-23 | clearing and then moving gives kept bytes followed by zeros |
| PoolRuns.Perform | Musa.Runtime/kext/kmalloc.cpp:7-157 | each of the five functions has exactly the stated effect on blocks, on the answers used up and on what is freed |
| PoolRuns.RunLedger | Musa.Runtime/kext/kmalloc.cpp:7-157 | after any run of requests on live blocks with true sizes, live plus given back equals live before plus obtained |
| PoolRuns.RunSpares | Musa.Runtime/kext/kmalloc.cpp:7-157 | a live block that no request of a run names stays live with its bytes and tag |
| PoolRuns.Run | Musa.Runtime/kext/kmalloc.cpp:7-157 | the functions called one after the other return the results and leave the state of the run, and the ledger balances |
| Pool.ZeroedTail | Musa.Runtime/kext/kmalloc.cpp:150-154 | the second clearing changes nothing after a resize |
| FormatArgs.Erase | Microsoft.VisualC.Runtime/MSVC/14.51.36231/include/__msvc_ranges_tuple_formatter.hpp:400-435 | an integer keeps its value and its signedness in the widened type; a narrow character in a wide context goes through unsigned char |
| FormatArgs.NumberOfBytes | Microsoft.VisualC.Runtime/MSVC/14.51.36231/include/__msvc_ranges_tuple_formatter.hpp:524 | the bytes of an object representation give its value back |
| FormatArgs.ByteOfNumber | Microsoft.VisualC.Runtime/MSVC/14.51.36231/include/__msvc_ranges_tuple_formatter.hpp:524 | byte k of an object representation is bits 8 k to 8 k + 7 of the value |
| FormatArgs.EncodedNumber | Microsoft.VisualC.Runtime/MSVC/14.51.36231/include/__msvc_ranges_tuple_formatter.hpp:517-553 | the stored bytes of each kind of argument: the value in two's complement, or two words one after the other |
| FormatArgs.StoredSizes | Microsoft.VisualC.Runtime/MSVC/14.51.36231/include/__msvc_formatter.hpp:81-97 | the type code and the number of bytes stored for each kind of argument as passed, the 32- and 64-bit integers apart |
| FormatArgs.DecodeEncode | Microsoft.VisualC.Runtime/MSVC/14.51.36231/include/__msvc_ranges_tuple_formatter.hpp:589-618 | reading an argument's bytes by its tag gives the argument, negative numbers and pairs included |
| FormatArgs.OffsetsAscend | Microsoft.VisualC.Runtime/MSVC/14.51.36231/include/__msvc_ranges_tuple_formatter.hpp:512-513 | argument ranges follow one another and end inside the storage |
| FormatArgs.IndexFieldExact | Microsoft.VisualC.Runtime/MSVC/14.51.36231/include/__msvc_ranges_tuple_formatter.hpp:477-495 | the 60-bit index and 4-bit type fields hold an entry exactly when its offset is below 2^60 |
| FormatArgs.StoreKeepsEarlier | Microsoft.VisualC.Runtime/MSVC/14.51.36231/include/__msvc_ranges_tuple_formatter.hpp:517-530 | a store adds its argument and its successor's offset without clobbering earlier ones |
| FormatArgs.StoredDecodes | Microsoft.VisualC.Runtime/MSVC/14.51.36231/include/__msvc_ranges_tuple_formatter.hpp:582-618 | every entry leads in bounds to the bytes of its own argument |
| FormatArgs.FormatArgStore.StoreImpl | Microsoft.VisualC.Runtime/MSVC/14.51.36231/include/__msvc_ranges_tuple_formatter.hpp:517-530 | copies the bytes at the recorded offset, sets the type and the next offset, changes nothing else |
| FormatArgs.FormatArgStore.Store | Microsoft.VisualC.Runtime/MSVC/14.51.36231/include/__msvc_ranges_tuple_formatter.hpp:533-553 | one more argument packed |
| FormatArgs.FormatArgStore.constructor | Microsoft.VisualC.Runtime/MSVC/14.51.36231/include/__msvc_ranges_tuple_formatter.hpp:556-560 | all arguments packed, each at the sum of the sizes before it |
| FormatArgs.FormatArgStore.Get | Microsoft.VisualC.Runtime/MSVC/14.51.36231/include/__msvc_ranges_tuple_formatter.hpp:575-619 | argument i with its tag for every i below the count, the empty argument otherwise |
| FormatArgs.RoundTrip | Microsoft.VisualC.Runtime/MSVC/14.51.36231/include/__msvc_ranges_tuple_formatter.hpp:556-619 | storing any argument list and reading any index gives that argument back, or the empty one; type and value are listed for every kind of argument as passed |
| ArgumentIds.ParseContext.NextArgId | Microsoft.VisualC.Runtime/MSVC/14.51.36231/include/__msvc_ranges_tuple_formatter.hpp:135-152 | the automatic step of the index counter with its two errors |
| ArgumentIds.ParseContext.CheckArgId | Microsoft.VisualC.Runtime/MSVC/14.51.36231/include/__msvc_ranges_tuple_formatter.hpp:154-166 | the manual step of the index counter with its two errors, in their order |
| ArgumentIds.AutomaticRun | Microsoft.VisualC.Runtime/MSVC/14.51.36231/include/__msvc_ranges_tuple_formatter.hpp:135-152 | once automatic, only automatic fields are accepted, and their numbers are consecutive |
| ArgumentIds.ManualRun | Microsoft.VisualC.Runtime/MSVC/14.51.36231/include/__msvc_ranges_tuple_formatter.hpp:135-166 | once manual, only manual fields are accepted, with the numbers written |
| ArgumentIds.ParseAccepts | Microsoft.VisualC.Runtime/MSVC/14.51.36231/include/__msvc_ranges_tuple_formatter.hpp:135-166 | a whole format string is accepted exactly when it never mixes the two ways of indexing and, while compiling, stays below the argument count |
| ArgumentIds.AutomaticStops | Microsoft.VisualC.Runtime/MSVC/14.51.36231/include/__msvc_ranges_tuple_formatter.hpp:135-166 | once automatic, parsing stops where the arguments run out or at the first field naming one, with the error of that case |
| ArgumentIds.ManualStops | Microsoft.VisualC.Runtime/MSVC/14.51.36231/include/__msvc_ranges_tuple_formatter.hpp:135-166 | once manual, parsing stops at the first automatic field or missing argument, with the error of that case |
| ArgumentIds.ParseStops | Microsoft.VisualC.Runtime/MSVC/14.51.36231/include/__msvc_ranges_tuple_formatter.hpp:135-166 | a refused format string stops at the first field of the other kind or meaning a missing argument; while running always by FormatError, while compiling with the kind first for automatic fields and the range first for manual ones |
| ArgumentIds.ParseFields | Microsoft.VisualC.Runtime/MSVC/14.51.36231/include/__msvc_ranges_tuple_formatter.hpp:135-166 | one parse context driven over the fields of a format string gives the outcome those theorems are about |
| ArgumentIds.CompiledStringsRun | Microsoft.VisualC.Runtime/MSVC/14.51.36231/include/__msvc_ranges_tuple_formatter.hpp:135-166 | what passes while compiling passes while running with the same arguments, all of which exist |
| FormatBuffer.ChunksTruncate | Microsoft.VisualC.Runtime/MSVC/14.51.36231/include/format:1671-1675 | cutting every flushed chunk to what is left cuts the whole text to the limit, negative limits included |
| FormatBuffer.PushConserves | Microsoft.VisualC.Runtime/MSVC/14.51.36231/include/__msvc_ranges_tuple_formatter.hpp:783-786 | pushing keeps output plus waiting characters equal to everything pushed |
| FormatBuffer.FlushConserves | Microsoft.VisualC.Runtime/MSVC/14.51.36231/include/__msvc_ranges_tuple_formatter.hpp:844-850 | flushing keeps it too, with and without a limit |
| FormatBuffer.IteratorBuffer.Flush | Microsoft.VisualC.Runtime/MSVC/14.51.36231/include/__msvc_ranges_tuple_formatter.hpp:844-850 | everything pushed so far is accounted for and the buffer is empty |
| FormatBuffer.IteratorBuffer.PushBack | Microsoft.VisualC.Runtime/MSVC/14.51.36231/include/__msvc_ranges_tuple_formatter.hpp:777-786 | nothing is flushed unless the 256 places are full; one character more was pushed; none is lost or written twice |
| FormatBuffer.IteratorBuffer.Out | Microsoft.VisualC.Runtime/MSVC/14.51.36231/include/__msvc_ranges_tuple_formatter.hpp:862-865 | the output is all that was pushed, or its first limit characters |
| FormatBuffer.IteratorBuffer.Count | Microsoft.VisualC.Runtime/MSVC/14.51.36231/include/__msvc_ranges_tuple_formatter.hpp:867-869 | with a limit, the number of characters pushed, written or not |
| FormatBuffer.CountingBuffer.PushBack | Microsoft.VisualC.Runtime/MSVC/14.51.36231/include/format:1684-1690 | the characters forgotten stay counted |
| FormatBuffer.FormatToN | Microsoft.VisualC.Runtime/MSVC/14.51.36231/include/format:3104-3110 | format_to_n writes the text cut to the limit and returns the length of the whole text |
| FormatBuffer.FormatTo | Microsoft.VisualC.Runtime/MSVC/14.51.36231/include/format:2988-3002 | writing through a buffer writes the whole text, in order and once |
| FormatBuffer.FormattedSize | Microsoft.VisualC.Runtime/MSVC/14.51.36231/include/format:3137-3141 | formatted_size is the length of the text |
| Ratios.GcdLoop | Microsoft.VisualC.Runtime/MSVC/14.51.36231/include/ratio:54-70 | the loop computes the greatest common divisor of the absolute values, with one for two zeros |
| Ratios.GcdDivides | Microsoft.VisualC.Runtime/MSVC/14.51.36231/include/ratio:54-70 | it divides both |
| Ratios.GcdIsGreatest | Microsoft.VisualC.Runtime/MSVC/14.51.36231/include/ratio:54-70 | every common divisor divides it |
| Ratios.Divide | Microsoft.VisualC.Runtime/MSVC/14.51.36231/include/ratio:122-168 | ratio_divide with its crosswise clearing represents the quotient of the ratios, in lowest terms |
| Ratios.ReducedUnique | Microsoft.VisualC.Runtime/MSVC/14.51.36231/include/ratio:72-83 | lowest terms are unique: the reduced ratio of n and d is n and d divided by their greatest common divisor |
| Ratios.CommonPeriod | Microsoft.VisualC.Runtime/MSVC/14.51.36231/include/__msvc_chrono.hpp:297-301 | gcd of numerators over lcm of denominators represents the common period |
| Ratios.CommonPeriodReduced | Microsoft.VisualC.Runtime/MSVC/14.51.36231/include/__msvc_chrono.hpp:297-301 | the common period is in lowest terms |
| Ratios.CommonPeriodIsGreatest | Microsoft.VisualC.Runtime/MSVC/14.51.36231/include/__msvc_chrono.hpp:297-301 | every reduced period that both periods are whole multiples of goes into the common period a whole number of times |
| Ratios.CoprimeDivides | Microsoft.VisualC.Runtime/MSVC/14.51.36231/include/ratio:54-70 | what divides a product and is coprime to one factor divides the other |
| Ratios.LcmDivides | Microsoft.VisualC.Runtime/MSVC/14.51.36231/include/__msvc_chrono.hpp:293-295 | every common multiple is a multiple of what _Lcm computes |
| Ratios.WholeCommonUnits | Microsoft.VisualC.Runtime/MSVC/14.51.36231/include/__msvc_chrono.hpp:297-301 | both periods are whole multiples of the common period, by factors computed from numerators and denominators alone, in the ratio of the periods |
| Chrono.ConversionFactors | Microsoft.VisualC.Runtime/MSVC/14.51.36231/include/__msvc_chrono.hpp:449-477 | every conversion factor from the four numbers of the two periods: a cast multiplies and divides by the ratio of the periods in lowest terms, and conversion to the common type only multiplies |
| Chrono.CommonIsExact | Microsoft.VisualC.Runtime/MSVC/14.51.36231/include/__msvc_chrono.hpp:411-416 | converting both durations to the common type multiplies by whole numbers in the ratio of the periods: nothing is rounded |
| Chrono.CastTruncates | Microsoft.VisualC.Runtime/MSVC/14.51.36231/include/__msvc_chrono.hpp:449-477 | all four branches of duration_cast truncate the exact value |
| Chrono.CastBounds | Microsoft.VisualC.Runtime/MSVC/14.51.36231/include/__msvc_chrono.hpp:449-477 | the cast is the floor of a nonnegative duration and the ceiling of a negative one |
| Chrono.FloorIsGreatest | Microsoft.VisualC.Runtime/MSVC/14.51.36231/include/__msvc_chrono.hpp:479-490 | a target count is at most floor if and only if it is no more than the duration |
| Chrono.CeilIsLeast | Microsoft.VisualC.Runtime/MSVC/14.51.36231/include/__msvc_chrono.hpp:492-503 | a target count is at least ceil if and only if it is no less than the duration |
| Chrono.RoundIsNearest | Microsoft.VisualC.Runtime/MSVC/14.51.36231/include/__msvc_chrono.hpp:511-526 | no target count is nearer than round; when one is equally near, round is even |
| Chrono.FloorAndCeilDefined | Microsoft.VisualC.Runtime/MSVC/14.51.36231/include/__msvc_chrono.hpp:479-503 | floor and ceil run into no overflow exactly when two products fit 64 bits: the count times the numerator of the ratio of the periods in lowest terms, and the count times the common units in a period, both given by greatest common divisors of the periods' parts |
| Chrono.RoundDefined | Microsoft.VisualC.Runtime/MSVC/14.51.36231/include/__msvc_chrono.hpp:511-526 | round runs into no overflow exactly when five numbers fit that are computed from the count and the numerators and denominators of the periods: the product of the cast, the count in the common type, both neighbouring target counts there, and the distance to the upper one, which fits by itself when the common type's factor does; floor is the exact quotient rounded down |
| Chrono.SplitFloor | Microsoft.VisualC.Runtime/MSVC/14.51.36231/include/__msvc_chrono.hpp:711-713 | splitting off whole seconds before scaling gives the same floor |
| Chrono.NowIsFloor | Microsoft.VisualC.Runtime/MSVC/14.51.36231/include/__msvc_chrono.hpp:679-715 | all three branches give floor(counter * 10^9 / frequency); nothing overflows when that fits and frequency * 10^9 fits |
| Chrono.NowDefined | Microsoft.VisualC.Runtime/MSVC/14.51.36231/include/__msvc_chrono.hpp:679-715 | nothing overflows exactly when the result fits and, on the general branch, the scaled part does |
| Chrono.NowIsMonotone | Microsoft.VisualC.Runtime/MSVC/14.51.36231/include/__msvc_chrono.hpp:679-715 | a later counter never reads earlier |
| StringSearch.Compare | Microsoft.VisualC.Runtime/MSVC/14.51.36231/include/__msvc_string_view.hpp:281-293 | zero without a difference, else the sign of the first one: as unsigned bytes for narrow characters, as numbers for the other library traits, by their own functions for custom ones |
| StringSearch.FirstDifference | Microsoft.VisualC.Runtime/MSVC/14.51.36231/include/__msvc_string_view.hpp:531-538 | the first difference decides the comparison: as unsigned bytes for narrow characters, as memcmp does, and as numbers for the other library traits |
| StringSearch.TraitsCompare | Microsoft.VisualC.Runtime/MSVC/14.51.36231/include/__msvc_string_view.hpp:709-727 | zero for equal strings only; negative exactly for a proper prefix or a smaller character at the first difference, narrow characters compared as unsigned bytes |
| StringSearch.TraitsEqual | Microsoft.VisualC.Runtime/MSVC/14.51.36231/include/__msvc_string_view.hpp:694-706 | true exactly for equal strings |
| StringSearch.OrderIsEquality | Microsoft.VisualC.Runtime/MSVC/14.51.36231/include/__msvc_string_view.hpp:709-727 | with the library's own traits the order is zero on equal strings only |
| StringSearch.OrderFlips | Microsoft.VisualC.Runtime/MSVC/14.51.36231/include/__msvc_string_view.hpp:709-727 | swapping the strings flips the sign |
| StringSearch.OrderTransitive | Microsoft.VisualC.Runtime/MSVC/14.51.36231/include/__msvc_string_view.hpp:709-727 | the order is transitive, narrow characters as unsigned bytes |
| StringSearch.OrderByPrefix | Microsoft.VisualC.Runtime/MSVC/14.51.36231/include/__msvc_string_view.hpp:712-726 | prefix first, lengths after is the lexicographic order |
| StringSearch.FindChar | Microsoft.VisualC.Runtime/MSVC/14.51.36231/include/__msvc_string_view.hpp:304-314 | the first occurrence, or none |
| StringSearch.Find | Microsoft.VisualC.Runtime/MSVC/14.51.36231/include/__msvc_string_view.hpp:730-776 | the least position from the start on where the needle occurs, npos exactly when there is none; every difference of sizes is a size_t that does not wrap |
| StringSearch.FindCh | Microsoft.VisualC.Runtime/MSVC/14.51.36231/include/__msvc_string_view.hpp:779-807 | the least position of a character from the start on, npos exactly when there is none |
| StringSearch.RFind | Microsoft.VisualC.Runtime/MSVC/14.51.36231/include/__msvc_string_view.hpp:810-852 | the greatest position not after the start where the needle occurs, npos exactly when there is none |
| StringSearch.RFindCh | Microsoft.VisualC.Runtime/MSVC/14.51.36231/include/__msvc_string_view.hpp:855-889 | the greatest position of a character not after the start |
| StringSearch.StringBitmap.Mark | Microsoft.VisualC.Runtime/MSVC/14.51.36231/include/__msvc_string_view.hpp:894-902 | refuses exactly when a wide character does not fit 256 flags; otherwise the flags are exactly the needle's bytes |
| StringSearch.ByteInjective | Microsoft.VisualC.Runtime/MSVC/14.51.36231/include/__msvc_string_view.hpp:898-907 | characters of one type share a byte only when they are equal, negative char values included |
| StringSearch.BitmapIsMembership | Microsoft.VisualC.Runtime/MSVC/14.51.36231/include/__msvc_string_view.hpp:904-907 | the bitmap test is the serial membership test |
| StringSearch.FindFirstOf | Microsoft.VisualC.Runtime/MSVC/14.51.36231/include/__msvc_string_view.hpp:944-990 | the least position holding one of the needle's characters; bitmap path, bail-out and serial path alike |
| StringSearch.FindLastOf | Microsoft.VisualC.Runtime/MSVC/14.51.36231/include/__msvc_string_view.hpp:993-1041 | the greatest position not after the start holding one of them |
| StringSearch.FindFirstNotOf | Microsoft.VisualC.Runtime/MSVC/14.51.36231/include/__msvc_string_view.hpp:1044-1092 | the least position holding none of them |
| StringSearch.FindNotCh | Microsoft.VisualC.Runtime/MSVC/14.51.36231/include/__msvc_string_view.hpp:1095-1124 | the least position holding another character |
| StringSearch.FindLastNotOf | Microsoft.VisualC.Runtime/MSVC/14.51.36231/include/__msvc_string_view.hpp:1127-1175 | the greatest position not after the start holding none of them |
| StringSearch.RFindNotCh | Microsoft.VisualC.Runtime/MSVC/14.51.36231/include/__msvc_string_view.hpp:1178-1205 | the greatest position not after the start holding another character |
| StringSearch.SubstringSearches | Microsoft.VisualC.Runtime/MSVC/14.51.36231/include/__msvc_string_view.hpp:730-852 | both directions over the strings themselves: the needle is the substring at the place found and at none before it, or after it |
| StringSearch.CharacterSearches | Microsoft.VisualC.Runtime/MSVC/14.51.36231/include/__msvc_string_view.hpp:779-1205 | the four searches for a character or for any other one, over the strings themselves |
| StringSearch.AmongSearches | Microsoft.VisualC.Runtime/MSVC/14.51.36231/include/__msvc_string_view.hpp:944-1041 | both directions: the first or last character that is in the needle, npos when there is none |
| StringSearch.OutsideSearches | Microsoft.VisualC.Runtime/MSVC/14.51.36231/include/__msvc_string_view.hpp:1044-1175 | both directions: the first or last character that is not in the needle, npos when there is none |
| StringSearch.FirstIsUnique | Microsoft.VisualC.Runtime/MSVC/14.51.36231/include/__msvc_string_view.hpp:963-989 | the promise has one answer, so bitmap and serial paths agree |
| StringSearch.LastMirrorsFirst | Microsoft.VisualC.Runtime/MSVC/14.51.36231/include/__msvc_string_view.hpp:810-889 | backward search is forward search in the mirror |
| StringSearch.SingleCharacter | Microsoft.VisualC.Runtime/MSVC/14.51.36231/include/__msvc_string_view.hpp:730-807 | for a one-character needle the substring, character and class searches agree |
| StringSearch.FirstOfOrNotOf | Microsoft.VisualC.Runtime/MSVC/14.51.36231/include/__msvc_string_view.hpp:944-1092 | at a start inside the haystack exactly one of the two class searches stops at once |
| StringSearch.StartsInside | Microsoft.VisualC.Runtime/MSVC/14.51.36231/include/__msvc_string_view.hpp:241-256 | the scan says whether the destination starts inside the source |
| StringSearch.Move | Microsoft.VisualC.Runtime/MSVC/14.51.36231/include/__msvc_string_view.hpp:233-276 | the destination gets what the source held before, however the ranges overlap, and nothing else changes |

## Left out

- Stream, file, locale and COM or WinRT wrapper code: foreign calls and input or output.
- Event handlers and re-entrant notification in `collection.h`, boxing, the `Agile` wrapping and `IndexOf`: user callbacks. A vector constructed from more than 2^31 - 1 items is refused by the code and excluded here by a precondition of the constructor.
- The `Map` family of `collection.h`: the same counter protocol over another container.
- Allocation failure inside `IncrementCounter`: the fresh counter is taken to be allocated.
- Division by zero and shift counts of 128 or more: outside the stated preconditions of the code.
- The operators of `_Signed128` with a built-in operand: the 128-by-128 forms are modelled.
- The base-2^64 division is written out three times in the code, in `_Divide`, `_Modulo` and `_Div_ceil`; the three copies differ only in which of quotient and remainder they keep, and one method stands for them. The same holds for the base-2^32 block.
- Joining two 32-bit halves by a constant shift and an or is written as the two-digit number they make; shifts by a variable count keep the or, and it is proved to be a sum of disjoint parts.
- Vectorised searches, hardware bit counts and `memmove` intrinsics: only declared in the repository; the portable paths are modelled.
- The i386 form of the population count, which adds two 32-bit counts: it would add an easy case.
- Heap ranges start at the first element of an array here, and end anywhere in it; moved-from elements keep their old value.
- The retry loops of the allocator are given finitely many handler answers, after which the handler refuses, so they end; a handler that agrees for ever is met only as any finite number of agreements.
- Pool types, IRQL and the failure of writes to `errno`: operating-system rules. A block is freed with its own tag.
- The layout of `_Index_array` and `_Storage` in one object, and alignment: the index entries and the bytes are two arrays here, and the step from the first to the second by pointer arithmetic is not modelled. Object sizes are those of 64-bit Windows.
- Formatting itself (`vformat_to`): the text it produces is a parameter of the buffer methods. The raw-pointer output buffer and the capacity estimate are not modelled.
- `advance_to` and the check of dynamic width types in the parse context: the first only moves the format string, the second is type-level.
- More than 2^63 - 1 automatic fields in one format string: the counter would overflow.
- Durations with unsigned, narrow or floating representations: 64-bit counts are modelled. Periods are positive, as the standard demands.
- User-supplied character traits: their equality and order are arbitrary functions, and their `find` and `compare` are taken to follow the character traits requirements.
- `length`, `assign`, `copy`, `substr`, `remove_prefix` and the rest of `basic_string_view`: easy members.
