# Arbitrary-precision integers, rationals, a chunked deque and a stack allocator with a list

This project models three small C++ components in Dafny and proves what they compute:

- **BigInteger and Rational** (`BigInteger/biginteger.h`).
  - A `BigInteger` is a sequence of base-10^9 limbs, least significant first, with a sign flag.
    `Value` gives the integer it denotes.
  - The model covers construction from a machine integer, from decimal text and from `parseString`.
  - It covers the limb maintenance (`trimLeft`, `pushOverflow`, `shiftLeft`), the sign case analysis and borrow loops of `+` and `-`, and both schoolbook products.
  - It covers division by a machine integer, long division with a binary search for each quotient limb, `%` as `a - b * (a / b)`, the increments, the comparisons, `operator bool` and `toString`.
  - A `Rational` is a numerator and a denominator, both BigIntegers.
    Its constructor moves the sign onto the numerator and reduces both parts by Euclid's algorithm (`shift`).
    `+ - * /` all go through that constructor. Comparison goes through a quotient.
    `toString` and `asDecimal` print the value.
- **Deque** (`Deque/deque.h`).
  - A double-ended queue stored in chunks of 16 slots, held in a growable map, with begin/end chunk indices and slot positions.
  - The model is a class with those fields. Each chunk is an `array`.
  - The element sequence is computed from the fields. `push_front/back`, `front/back`, `operator[]`, `at`, `insert`, `erase` and `reallocate` are proved against it, and `pop_front/back` are proved against it while the ends stay contiguous.
  - `clear` is proved to reach size 0 with the map kept. It does not promise an element sequence, because the as-written `pop_back` can break contiguity on the way.
  - Iterator position arithmetic is modelled with `size_t` and `int32_t` wrap-around.
- **StackStorage, StackAllocator and List** (`StackAllocator/stackallocator.h`).
  - The model covers a bump allocator over a fixed buffer, whose only state is the offset of the first free byte, and the typed allocator that forwards to it.
  - It also covers a circular doubly linked list with a sentinel node: a class of `Node` objects with `prev`/`next` fields, relinked in place.
    Its contents and node order are proved for every operation.

Behaviour of the code as written is kept, and pinned down by the contracts:

- BigInteger:
  - a negative value is `<` itself;
  - `==` compares the sign flags, so "-0" is not equal to 0;
  - text with leading zeros keeps extra zero limbs.
- Deque:
  - `pop_back` from slot 0 of a chunk resets `begin_pos_`;
  - `erase` keeps `size_`, so the last element then appears twice, and returns position `pos + 1`.
- List: `operator=` reverses the order.

The defects among these are listed under Findings, each with a corrected version.

## Model

| member | source | states |
|---|---|---|
| BigInt.FromInt | BigInteger/biginteger.h:128-145 | for every int64 except INT64_MIN, the result is trimmed, denotes exactly `number`, and has its sign flag set exactly when `number` is negative |
| BigInt.TrimLeft | BigInteger/biginteger.h:100-106 | keeps the sign and the value; the result is a prefix of the limbs and removes only zero limbs; it leaves at least one limb and no most-significant zero limb unless the value is the single limb 0 |
| BigInt.PushOverflow | BigInteger/biginteger.h:590-604 | the value of the limbs is unchanged; the length grows by at most one; every limb below the top becomes a digit; after a limb-wise sum of two digit sequences every limb is a digit and a new top limb is 1 |
| BigInt.ShiftLeft | BigInteger/biginteger.h:606-615 | with more than one limb and a non-zero top the limbs move up one place (a copy of limb 0 stays at 0), otherwise the top limb is lost; in both usual cases the limbs above 0 denote the old value |
| BigInt.Less | BigInteger/biginteger.h:229-251 | decides by sign flags, then limb counts, then limbs from the top; on trimmed values it is `<` on integers, except that a negative value is also less than an equal value |
| BigInt.LessSpecValue | BigInteger/biginteger.h:229-251 | the limb-level order agrees with integer order on trimmed values, with the equal-negatives exception |
| BigInt.Greater | BigInteger/biginteger.h:253-255 | `rhs < lhs`, with its integer meaning on trimmed values |
| BigInt.LessEq | BigInteger/biginteger.h:257-259 | `!(lhs > rhs)`: integer `<=`, except that a negative value is not `<=` an equal one |
| BigInt.GreaterEq | BigInteger/biginteger.h:261-263 | `!(lhs < rhs)`: integer `>=`, except for equal negatives |
| BigInt.Equal | BigInteger/biginteger.h:265-275 | true exactly for equal limbs and equal sign flags; on trimmed values, equal value and equal sign flag, so "-0" differs from 0 |
| BigInt.NotEqual | BigInteger/biginteger.h:277-279 | the negation of Equal |
| BigInt.ToBool | BigInteger/biginteger.h:555-557 | false exactly for a single zero limb ("-0" included); on trimmed values, true exactly for a non-zero value |
| BigInt.Negate | BigInteger/biginteger.h:49 | the value is negated, the flag flipped, trimming kept |
| BigInt.Abs | BigInteger/biginteger.h:54 | the absolute value, with the flag clear |
| BigInt.WithSign | BigInteger/biginteger.h:183-189 | the magnitude of `other` with the given sign |
| BigInt.Filled | BigInteger/biginteger.h:147-154 | `len` limbs, non-negative, denoting 0 when filled with 0 |
| BigInt.TruncDivMod | BigInteger/biginteger.h:418-420 | the C++ quotient and remainder put the dividend back together, `x == y * q + r` |
| BigIntArith.AddDigits | BigInteger/biginteger.h:293-302 | the limb-wise sum followed by pushOverflow and trimLeft is trimmed and its magnitude is the sum of the magnitudes |
| BigIntArith.SubDigits | BigInteger/biginteger.h:312-344 | the borrow loops on a minuend not smaller than the subtrahend give a trimmed result whose magnitude is the difference |
| BigIntArith.Add | BigInteger/biginteger.h:285-303 | the result is trimmed and, for trimmed operands, denotes the exact sum; its flag is set exactly for a negative sum, or for "-0" from two negative zeros |
| BigIntArith.Sub | BigInteger/biginteger.h:305-345 | the result is trimmed and, for trimmed operands, denotes the exact difference, with the same sign-flag rule |
| BigIntArith.MulScalar | BigInteger/biginteger.h:357-379 | the product by an int64 factor (small enough that limb times factor fits in 64 bits) denotes `a * n`; a zero operand gives the canonical 0; the sign is the xor; every limb except the top is a digit, and the top is a digit when the factor is at most 10^9 |
| BigIntArith.ScalarOverflowWitness | BigInteger/biginteger.h:372-375 | no two-digit result can denote 999999999 * 18446744073, so the as-written product's top limb exceeds a digit there |
| BigIntArith.ScalarOverflowOrder | BigInteger/biginteger.h:236-241 | such a result compares below 10^18 by limb count although it denotes more |
| BigIntArith.MulScalarCarried | BigInteger/biginteger.h:357-379 | the corrected scalar product, with the final carry split into digit limbs, is trimmed and exact for every factor the 64-bit arithmetic admits |
| BigIntArith.Mul | BigInteger/biginteger.h:386-407 | the product is trimmed and exact; a zero operand gives the canonical 0; the flag is the xor of the flags of two non-zero operands |
| BigIntArith.DivScalar | BigInteger/biginteger.h:414-426 | for a positive divisor up to 2^31, the result is trimmed, keeps the dividend's flag and denotes the quotient truncated toward zero |
| BigIntArith.QuotientDigit | BigInteger/biginteger.h:463-473 | the binary search finds the largest x with `|b| * x` not above the running remainder: x is a digit and equals `remainder / |b|` |
| BigIntArith.BringDown | BigInteger/biginteger.h:458-462 | push_back, shiftLeft, trimLeft and writing limb 0 give `limb + BASE * remainder` |
| BigIntArith.Div | BigInteger/biginteger.h:446-480 | 0 when either operand is zero or `|b| > |a|`; otherwise the magnitude is `|a| / |b|` and the flag is the xor; with a trimmed divisor, and a dividend trimmed or not, the quotient truncated toward zero |
| BigIntArith.LongDivision | BigInteger/biginteger.h:453-477 | the limb loop of operator/ leaves one more limb than the dividend has, every one a digit, together denoting `|a| / |b|` |
| BigIntArith.Mod | BigInteger/biginteger.h:487-522 | `a` itself when `a < b`; 0 when either is 0; otherwise trimmed and, on trimmed operands, the truncating remainder (which for non-negative operands is the Euclidean one) |
| BigIntArith.PreIncrement | BigInteger/biginteger.h:533-536 | the value plus one, trimmed, with a flag that matches its sign |
| BigIntArith.PostIncrement | BigInteger/biginteger.h:538-542 | returns the old value; the object holds the value plus one |
| BigIntArith.PreDecrement | BigInteger/biginteger.h:544-547 | the value minus one |
| BigIntArith.PostDecrement | BigInteger/biginteger.h:549-553 | returns the old value; the object holds the value minus one |
| BigIntText.FromString | BigInteger/biginteger.h:156-181 | ceil(digits / 9) limbs whose base-10^9 value is the decimal value of the digits, negated after a '-'; trimmed when the digits have no leading zero |
| BigIntText.ParseInto | BigInteger/biginteger.h:191-211 | parseString writes group k of nine digits from the right into limb k, writes the top group only when non-zero, and leaves the rest of the buffer as it was |
| BigIntText.ParseLimbsValue | BigInteger/biginteger.h:166-180 | the limbs the parser produces denote the decimal value of the digits |
| BigIntText.ParseLimbsTrimmed | BigInteger/biginteger.h:156-181 | digits without a redundant leading zero parse to trimmed limbs |
| BigIntText.ToString | BigInteger/biginteger.h:213-227 | toString prints "-" only for a negative value other than the single zero limb, then the top limb as it is and every lower limb padded to nine digits |
| BigIntText.RenderLimbsDecVal | BigInteger/biginteger.h:219-225 | the printed digits of any limbs, trimmed or not, read back as their value |
| BigIntText.RenderLimbsValue | BigInteger/biginteger.h:219-225 | the printed digits of trimmed limbs have no redundant leading zero and read back as the value |
| BigIntText.RenderParse | BigInteger/biginteger.h:156-227 | for text without leading zeros other than "-0", toString after parsing gives the text back |
| BigIntText.ParseRender | BigInteger/biginteger.h:156-227 | for every trimmed value other than "-0", parsing what toString printed gives the same BigInteger |
| BigIntText.RenderValue | BigInteger/biginteger.h:156-227 | for every well-formed value, untrimmed and "-0" included, the printed text parses back to the same value |
| BigIntText.TruthOfText | BigInteger/biginteger.h:555-557 | "12212" converts to true and "0" to false |
| BigIntText.NegativeZeroText | BigInteger/biginteger.h:265-275 | "-0" parses to a zero with the flag set, which is not `==` to the parsed "0", and prints as "0" |
| Decimal.NumToString | BigInteger/biginteger.h:111-117 | decimal digits that read back as the number: without a redundant leading zero (as std::to_string prints) when unpadded or longer than nine digits, and exactly nine of them for a limb with padding on |
| Decimal.DecPow | BigInteger/biginteger.h:119-126 | digits of 10^pow without a leading zero, or "0" for a negative pow |
| Decimal.PadRoundTrip | BigInteger/biginteger.h:220-223 | printing the value of any digit group and padding it to the group's width gives the group back |
| Rationals.CommonDivisor | BigInteger/biginteger.h:735-743 | the loop of shift ends with x + y equal to the gcd of the magnitudes |
| Rationals.GcdDivides | BigInteger/biginteger.h:737-743 | Euclid's answer is 0 only for two zeros and divides both |
| Rationals.GcdGreatest | BigInteger/biginteger.h:737-743 | every common divisor divides Euclid's answer |
| Rationals.Shift | BigInteger/biginteger.h:734-748 | both parts are divided exactly by the gcd of their magnitudes and stay trimmed |
| Rationals.Make | BigInteger/biginteger.h:677-696 | the result denotes the same ratio; for a non-zero denominator the denominator is positive, the flag marks a negative numerator, the parts are coprime and zero is 0/1; a zero denominator leaves the sign of num over 0 |
| Rationals.FromInt | BigInteger/biginteger.h:624-625 | n/1 in lowest terms |
| Rationals.FromBigInteger | BigInteger/biginteger.h:626 | the value over 1, kept untrimmed when it is; trimmed exactly when the BigInteger is, and in lowest terms with a proper sign for any well-formed BigInteger |
| Rationals.Negate | BigInteger/biginteger.h:750-754 | the numerator negated and its flag flipped, the denominator kept, lowest terms kept |
| Rationals.Add | BigInteger/biginteger.h:756-759 | for any well-formed parts, trimmed or not: the ratio of `a.n * b.d + b.n * a.d` to `a.d * b.d`, trimmed, in lowest terms with a positive denominator |
| Rationals.Sub | BigInteger/biginteger.h:761-765 | for any well-formed parts: the ratio of `a.n * b.d - b.n * a.d` to `a.d * b.d`, trimmed, in lowest terms |
| Rationals.Mul | BigInteger/biginteger.h:767-769 | for any well-formed parts: the ratio of the products, trimmed, in lowest terms |
| Rationals.Div | BigInteger/biginteger.h:771-773 | for any well-formed parts: the ratio of `a.n * b.d` to `a.d * b.n`, in lowest terms; by zero, a zero denominator with the sign of `a.n * b.d`, flipped when the product `a.d * b.n` is a "-0" |
| Rationals.Less | BigInteger/biginteger.h:799-812 | decided by the sign flags when they differ; for proper operands, trimmed or not, exactly the order of the rationals |
| Rationals.QuotientOrder | BigInteger/biginteger.h:810-811 | for non-negative operands, the quotient's numerator is below its denominator exactly when lhs < rhs, also for a zero rhs |
| Rationals.Greater | BigInteger/biginteger.h:814 | the order of the rationals, reversed |
| Rationals.LessEq | BigInteger/biginteger.h:816-818 | `<=` of the rationals |
| Rationals.GreaterEq | BigInteger/biginteger.h:820-822 | `>=` of the rationals |
| Rationals.Equal | BigInteger/biginteger.h:824-826 | equal cross-products for proper operands; never equal when the sign flags differ |
| Rationals.NotEqual | BigInteger/biginteger.h:828-830 | the negation of Equal |
| Rationals.ToString | BigInteger/biginteger.h:698-704 | for any well-formed parts: the numerator alone over a denominator of 1, which parses back to the value even when untrimmed; otherwise numerator "/" denominator, with a '/' exactly then |
| Rationals.AsDecimal | BigInteger/biginteger.h:706-732 | for a numerator trimmed or not over a trimmed positive denominator, and p > 0: the sign, then `|num| * 10^p / den` padded to at least p digits, "0" in front when exactly p, "." before the last p; for p = 0 the truncated quotient as toString prints it: no redundant leading zero, and a '-' exactly when the quotient is negative |
| Rationals.LowestTermsUnique | BigInteger/biginteger.h:677-696 | two constructor results denoting the same rational are the same pair of BigIntegers |
| Deques.Deque.constructor | Deque/deque.h:119 | no map, every index 0, no elements |
| Deques.Deque.Filled | Deque/deque.h:121-125 | `count` copies of `value` |
| Deques.Deque.SlotOf | Deque/deque.h:259-274 | operator[] reads chunk `(First + pos) / 16` at slot `(First + pos) % 16`, where First is the linear slot of the first element |
| Deques.Deque.ElementsAt | Deque/deque.h:259-274 | in a coherent deque, element `pos` is what operator[] reads |
| Deques.Deque.EndsAreElements | Deque/deque.h:249-257 | front() is position 0 and back() is position size - 1 |
| Deques.Deque.Get | Deque/deque.h:259-274 | in a coherent deque, operator[] at a position below the size returns the element at that position |
| Deques.Deque.Front | Deque/deque.h:249-252 | in a non-empty coherent deque, front() returns the first element |
| Deques.Deque.Back | Deque/deque.h:254-257 | in a non-empty coherent deque, back() returns the last element |
| Deques.Deque.At | Deque/deque.h:276-302 | out_of_range exactly when `pos >= size`, otherwise operator[]'s element |
| Deques.Deque.AtElements | Deque/deque.h:276-302 | at() agrees with the element sequence |
| Deques.Deque.Reallocate | Deque/deque.h:357-375 | the map triples, the old chunks form its middle third, both chunk indices move by the old size, and the slot operator[] reads for every position keeps its value |
| Deques.Deque.PushBack | Deque/deque.h:213-232 | the index fields follow push_back, back() is `x`, and the elements become the old ones followed by `x` |
| Deques.Deque.PushFront | Deque/deque.h:177-196 | the index fields follow push_front, front() is `x`, and the elements become `x` followed by the old ones |
| Deques.PushBackContiguous | Deque/deque.h:213-232 | push_back keeps the ends contiguous and adds one slot after the last |
| Deques.PushFrontContiguous | Deque/deque.h:177-196 | push_front keeps the ends contiguous and adds one slot before the first |
| Deques.Deque.PopFront | Deque/deque.h:199-211 | the index fields follow pop_front as written; while the ends stay contiguous the elements lose their first |
| Deques.PopFrontContiguous | Deque/deque.h:199-211 | pop_front keeps the ends contiguous exactly unless the only element sits in the last slot of its chunk |
| Deques.Deque.PopBack | Deque/deque.h:234-247 | the index fields follow pop_back as written; from a slot other than 0 the elements lose their last |
| Deques.PopBackContiguous | Deque/deque.h:234-238 | from a slot other than 0, pop_back keeps the ends contiguous and the first slot in place |
| Deques.Deque.Clear | Deque/deque.h:169-174 | size pop_backs: the map is kept and the size becomes 0 |
| Deques.Deque.SetAt | Deque/deque.h:259-265 | a write through operator[] replaces exactly one element |
| Deques.Deque.Insert | Deque/deque.h:334-344 | the elements become the old ones with `x` placed at `pos`, and the iterator returned is `pos + 1` |
| Deques.Deque.Erase | Deque/deque.h:346-355 | the elements after `pos` move down one place, the size stays, so the old last element ends up in the last two positions; the iterator returned is `pos + 1` |
| Deques.Deque.Begin | Deque/deque.h:304-307 | position 0 |
| Deques.Deque.End | Deque/deque.h:309-312 | position size |
| Deques.Deque.BeginEndDistance | Deque/deque.h:79-82 | end() - begin() is the size when it fits in int32, and begin() advanced by the size is end() |
| Deques.NextPrev | Deque/deque.h:28-35 | ++ and -- undo each other on every size_t position |
| Deques.AdvanceRetreat | Deque/deque.h:36-53 | advancing and retreating by the same offset returns to the start |
| Deques.DistanceAdvance | Deque/deque.h:79-82 | on int32 positions the difference is exact and advancing by it reaches the other iterator |
| Deques.DistanceWraps | Deque/deque.h:79-82 | positions 2^32 apart have difference 0 |
| Deques.Next | Deque/deque.h:28-31 | ++ moves one position on, and wraps from the largest size_t to 0 |
| Deques.Prev | Deque/deque.h:32-35 | -- moves one position back, and wraps from 0 to the largest size_t |
| Deques.Advance | Deque/deque.h:36-53 | += and + move on by the offset, exactly while the result is a size_t, and otherwise modulo 2^64 |
| Deques.Retreat | Deque/deque.h:36-53 | -= and - move back by the offset, exactly while the result is a size_t, and otherwise modulo 2^64 |
| Deques.Distance | Deque/deque.h:79-82 | the difference is an int32 value, exact when both positions fit in int32, and otherwise congruent to it modulo 2^32 |
| Deques.ToInt32 | Deque/deque.h:80-81 | the two's-complement cast: in range, equal modulo 2^32, and the identity on int32 values |
| StackAllocators.AlignUpLeast | StackAllocator/stackallocator.h:28-31 | the rounded offset is the least multiple of the alignment not below the offset, and an aligned offset is unchanged |
| StackAllocators.StackStorage.constructor | StackAllocator/stackallocator.h:15 | nothing handed out, the free offset at 0 |
| StackAllocators.StackStorage.Allocate | StackAllocator/stackallocator.h:27-35 | returns the aligned offset and moves the free offset exactly `bytes_count` past it; the regions handed out stay disjoint and below the free offset |
| StackAllocators.StackStorage.Deallocate | StackAllocator/stackallocator.h:19 | nothing changes |
| StackAllocators.AllocateTwice | StackAllocator/stackallocator.h:27-35 | two successive allocations are aligned and do not overlap, the second starting at or after the end of the first |
| StackAllocators.StackAllocator.constructor | StackAllocator/stackallocator.h:53 | the allocator uses the given storage |
| StackAllocators.StackAllocator.Rebound | StackAllocator/stackallocator.h:55-57 | the converted allocator shares the other's storage |
| StackAllocators.StackAllocator.AssignFrom | StackAllocator/stackallocator.h:75-81 | the allocator takes the other's storage |
| StackAllocators.StackAllocator.Allocate | StackAllocator/stackallocator.h:83-87 | `count * sizeof(T)` bytes aligned to `sizeof(T)` |
| StackAllocators.StackAllocator.Deallocate | StackAllocator/stackallocator.h:72 | nothing changes |
| StackAllocators.EqualityIsEquivalence | StackAllocator/stackallocator.h:91-101 | `==` (same storage) is an equivalence and `!=` is its negation |
| Lists.Node.Base | StackAllocator/stackallocator.h:111 | both links null |
| Lists.Node.constructor | StackAllocator/stackallocator.h:115-120 | the value and both links as given |
| Lists.List.constructor | StackAllocator/stackallocator.h:264-269 | size 0 and a sentinel linked to itself |
| Lists.List.WithDefaults | StackAllocator/stackallocator.h:271-295 | `count` default values |
| Lists.List.Filled | StackAllocator/stackallocator.h:297-324 | `count` copies of `value` |
| Lists.List.Copy | StackAllocator/stackallocator.h:326-338 | the same elements as `other`, in the same order |
| Lists.List.Insert | StackAllocator/stackallocator.h:391-409 | a new node holding `value` is linked in just before `pos`; the size grows by one and the node is returned |
| Lists.List.Erase | StackAllocator/stackallocator.h:348-360 | the node at `pos` is unlinked, its value removed and the size shrinks by one |
| Lists.List.Clear | StackAllocator/stackallocator.h:362-367 | no elements, the sentinel kept |
| Lists.List.PushFront | StackAllocator/stackallocator.h:432-440 | the value becomes the first element |
| Lists.List.PushBack | StackAllocator/stackallocator.h:442-450 | the value becomes the last element |
| Lists.List.PopFront | StackAllocator/stackallocator.h:452-455 | the first element is removed |
| Lists.List.PopBack | StackAllocator/stackallocator.h:457-460 | the last element is removed |
| Lists.List.Begin | StackAllocator/stackallocator.h:226 | the first node of the circle |
| Lists.List.End | StackAllocator/stackallocator.h:227 | the sentinel, after the last element and not among the elements |
| Lists.List.Size | StackAllocator/stackallocator.h:224 | the number of elements |
| Lists.List.Steps | StackAllocator/stackallocator.h:147-167 | ++ moves to the next position (from end() to begin()) and -- to the previous one |
| Lists.List.Assign | StackAllocator/stackallocator.h:375-389 | as written: the other list's elements in reverse order, and no elements when assigned from itself |
| Lists.ReversedDiffers | StackAllocator/stackallocator.h:381-384 | whenever the first and last elements differ, the reversed order is a different list |
| Lists.List.AssignInOrder | StackAllocator/stackallocator.h:375-389 | corrected: the other list's elements in their order, itself included |

## Left out

- Stream input and output, the `_bi` literals and `write_char.cpp` are left out: they are I/O or thin wrappers over the constructors.
- `operator double` of BigInteger and Rational is left out because it is floating point.
- `toStringOld` is left out: it is declared and never defined.
- The compound assignments (`+=`, `-=`, `*=`, `/=`, `%=`) and unary `+` are left out: each just applies the operator it names.
- The `size_` cache of BigInteger is left out. `len()` is the number of limbs.
- BigInt.FromInt: requires a value other than INT64_MIN, whose negation overflows in the source.
- BigIntArith.MulScalar: requires that `BASE * |n|` fits in 64 bits. The source computes `a[i] * n + rest` in 64 bits and wraps silently beyond that.
- BigIntArith.DivScalar: requires a positive divisor of at most 2^31, so that the `int` remainder cannot overflow. For a negative divisor, the source's mixed `int64_t`/`int` arithmetic is not modelled.
- BigIntArith.Div, BigIntArith.Mod: require that a divisor which is truthy has a non-zero value. Untrimmed zero divisors such as limbs `[0, 0]` (text "0000000000") make the source's search return BASE.
- BigIntArith.Add, BigIntArith.Sub, BigIntArith.Mod and the increments state exact values for trimmed operands only, and BigIntArith.Div for a trimmed divisor. For untrimmed operands they state trimmed results. The source's length-first comparison misorders untrimmed operands. BigIntArith.Mul is exact for every well-formed operand.
- Rationals.Make, Rationals.Shift: require trimmed parts. Every operator passes them products, which are trimmed; an untrimmed argument from a caller would go through shift's `%` and `>`, whose length-first comparison misorders untrimmed values.
- Rationals.AsDecimal: states its layout for a trimmed positive denominator with a clear flag, which every constructed rational has (BigInteger(1), or the quotient shift leaves). It does not state the output for a zero denominator. It requires, as BigIntArith.Div does, that a truthy denominator is non-zero.
- Deques.Deque.PopFront, Deques.Deque.PopBack: state the new elements only while the ends stay contiguous. Otherwise the as-written index fields are stated and the consequence is proved under Findings.
- The Deque copy constructor, `operator=` and destructor are left out. The copy constructor leaves the index fields uninitialised, and the others are loops of push_back/clear or memory release.
- Iterator comparison, `operator*` and `operator->` of both containers are left out: they compare or dereference a position or node and are covered by `Get` and `Steps`.
- The Deque's `allocator` construct/destroy calls and the List's try/catch rollback paths are left out. Allocation failure is not modelled.
- BigIntText.ToString: requires every limb below the top to be a digit. The source throws std::length_error otherwise, because `BASE_LENGTH - tmp.length()` wraps around in `size_t` (biginteger.h:222). Such values arise from `BigInteger(1000000000, 2)`, from writes through the public `operator[]`, and from adding two results of the scalar product defect under Findings.
- BigIntText.FromString, BigIntText.ParseInto: require well-formed text, an optional '-' and at least one decimal digit. The source also accepts "-" alone, which gives zero limbs with the flag set, and text with non-digit characters, which gives meaningless limbs.
- Deques.Deque.PopFront, Deques.Deque.PopBack: require `size > 0`. On an empty deque the source's `--size_` wraps around to the largest `size_t`.
- Deques.Deque.Insert: requires `size > 0`. On a deque that was emptied but still has a map, the source reads back() from a slot that holds no live element and pushes a copy of it.
- Lists.List.Erase, Lists.List.PopFront, Lists.List.PopBack: require an element node (`size > 0`). Erasing the sentinel is undefined in the source.
- Lists.List.WithDefaults: takes the default-initialised value as a parameter; for a scalar `T` the source leaves it indeterminate.
- The List's nodes live on the Dafny heap, not in a StackStorage. Allocator propagation and `select_on_container_copy_construction` are not modelled.
- The List move constructor is left out: it overwrites and leaks the sentinel it delegated to build.
- The allocator rebind machinery and type traits are left out. `sizeof(T)` is a parameter.
- StackAllocators.StackStorage.Allocate: does not check the capacity, as the source does not. `size_t` overflow of the offset is not modelled.

## Findings

| source | as written | input that shows it | evidently intended | confidence | as-written member | corrected member |
|---|---|---|---|---|---|---|
| BigInteger/biginteger.h:372-375 | the final carry of the scalar product is stored as one limb, which can exceed a digit once \|n\| > 10^9 | `BigInteger(999999999) * 18446744073` gives two limbs, the top one 18446744054, which `<` then places below 10^18 | split the carry into base-10^9 limbs | not executed | BigIntArith.ScalarOverflowWitness | BigIntArith.MulScalarCarried |
| Deque/deque.h:240-243 | pop_back from slot 0 of a chunk sets `begin_pos_ = 0` and leaves `end_pos_` at 0 | `push_back(1); push_front(0); push_back(2); pop_back();` leaves two elements whose first and last slot coincide, and front() now reads slot 16 | set `end_pos_ = kChunkSize - 1` | not executed | Deques.PopBackAtChunkStart | Deques.PopBackCorrectedContiguous |
| Deque/deque.h:199-211 | pop_front of the only element in the last slot of its chunk leaves begin and end on that slot | `push_back(1); pop_front(); push_back(2);` leaves front() on slot 31, where the popped 1 was, while the 2 is in slot 32 | leave an emptied deque's begin one slot past its end | not executed | Deques.StaleFrontAfterPopFront | Deques.PopFrontCorrectedContiguous |
| StackAllocator/stackallocator.h:375-389 | operator= inserts each element at cbegin(), and does not check for self-assignment | assigning `{1, 2}` gives `{2, 1}`, and `l = l` empties `l` | copy in order, and leave a self-assignment unchanged | not executed | Lists.List.Assign | Lists.List.AssignInOrder |
