# SG14 `fixed_point` in Dafny

This project models the SG14 `fixed_point<ReprType, Exponent>` header
(`include/fixed_point.h`) and proves properties of the model. A
`fixed_point` is a scaled integer: one field `_repr` of a built-in integer type
stands for `_repr * 2^Exponent`. The model follows the header's four layers.

- **Integer kinds** (`int_kinds.dfy`). A built-in integer type is an `IntKind(signed, bytes)` for 1, 2, 4, 8
  or 16 bytes. Its helpers are `make_int`, `next_size`, `previous_size`, `make_signed`, `make_unsigned`,
  `common_repr_type`, `capacity` and `sufficient_repr`. `static_cast` is `Wrap`, the two's-complement
  reduction into the kind's range. C++ integral promotion and the usual arithmetic conversions are written
  out, wherever the type of an intermediate decides the value.
- **Safe shifts** (`shifts.dfy`). `_impl::shift_left` and `_impl::shift_right` take any exponent sign, any
  pair of widths, and signed input by magnitude and sign. Every rescale in the library goes through them.
  `>>` on a negative value floors, as on the gcc and clang targets the header assumes.
- **The class** (`fixed_point.dfy`, `assignment.dfy`). A type is a `FixedKind(reprType, exponent)`; a value
  is a `Fixed`. The conversions from an integer, to an integer and from another fixed-point type are here.
  So are `from_data`, `operator bool`, the homogeneous comparisons, negation, `+` and `-`. The assignment and
  compound-assignment operators overwrite `_repr` in place. They are methods of the class
  `FixedPointVariable`.
- **Type resolution and arithmetic**:
  - `make_fixed`, `make_fixed_from_repr`, `promote_result`, `demote_result`, `_common_type` and every
    `trunc_*_result` / `promote_*_result` (`type_resolution.dfy`);
  - `promote` and `demote` (`promotion.dfy`);
  - `_impl::multiply` (`multiplication.dfy`), `_impl::divide` (`division.dfy`) and the variadic
    `_impl::add` fold behind `trunc_add` (`addition.dfy`);
  - the heterogeneous operators (`operators.dfy`);
  - `trunc_square` and `promote_square` (`squares.dfy`);
  - the digit-by-digit square root (`square_root.dfy`), `sqrt` and `trunc_sqrt` (`fixed_sqrt.dfy`);
  - `trunc_shift_left` and `trunc_shift_right` (`trunc_shift.dfy`).

Integers are unbounded in Dafny, so every width is explicit. A result that overflows its type is reduced
modulo 2^bits with `Wrap`. That is what the hardware does for unsigned types. For signed overflow, which is
undefined behaviour, it is the conventional two's-complement outcome. C++ integer `/` truncates toward zero,
and the model's `TruncDiv` does the same. Dafny's own `/` is kept for the floor that `>>` computes.

Where the code and its documentation differ, the model follows the code. The code of `_impl::divide`
divides with C++ `/`, which truncates. Its result is then rescaled with `shift_left`, whose right shift
floors. So a fixed-point quotient rounds toward negative infinity whenever the rescale drops bits: for
`fixed_point<int32_t, 0>`, -7 / 2 is -4 (`Division.DivisionOfNegativeIntegersFloors`). The member
`operator/=` by an integer divides `_repr` directly and rounds toward zero: -7 /= 2 gives -3
(`Operators.DivideByIntegerOfMinusSeven`).
The header describes `promote_result` as having twice the fractional bits. For a positive exponent the
code doubles the exponent instead, which drops low bits: 12 as `fixed_point<int8_t, 2>` promotes to 0
(`Promotion.PromoteOfTwelveLosesIt`), so `demote(promote(x))` gives x back only when the exponent is at
most 0, or when 2^exponent divides the representation (`Promotion.PromoteFloors`).

## Model

| member | source | states |
|---|---|---|
| IntKinds.MakeInt | include/fixed_point.h:33-51 | `make_int` names a type of the requested signedness and size, for the five specialised sizes |
| IntKinds.RangeIsPow2 | include/fixed_point.h:24-28 | a kind of `num_bits` bits holds 2^bits values, from -2^digits (signed) or 0 up to 2^digits - 1 |
| IntKinds.Wrap | include/fixed_point.h:166-173 | `static_cast` into a kind gives a value of that kind; its value modulo 2^bits in `IntKinds.WrapResidue`, and no change for a value in range in `IntKinds.WrapOfInRange` |
| IntKinds.WrapThroughWider | include/fixed_point.h:166-173 | a `static_cast` through a wider kind and then to a narrower one is the direct cast, and keeps the value modulo the narrower modulus |
| IntKinds.NextSize | include/fixed_point.h:140-141 | `next_size` keeps the signedness, doubles the bits and holds every value of the original |
| IntKinds.PreviousSize | include/fixed_point.h:143-149 | `previous_size` keeps the signedness and halves the bits; `IntKinds.NextPreviousInverse` makes it the inverse of `next_size` |
| IntKinds.NextPreviousInverse | include/fixed_point.h:140-149 | `previous_size` undoes `next_size` and the other way round |
| IntKinds.MakeSigned | include/fixed_point.h:112-121 | `make_signed` keeps the size and is signed |
| IntKinds.MakeUnsigned | include/fixed_point.h:126-133 | `make_unsigned` keeps the size and drops the sign |
| IntKinds.CommonReprType | include/fixed_point.h:325-345 | the fold's size is the largest input size, attained by some input, and it is signed exactly when some input is |
| IntKinds.CommonReprTypeOrderFree | include/fixed_point.h:325-345 | `common_repr_type` does not depend on the order or the repetition of its inputs |
| IntKinds.Capacity | include/fixed_point.h:352-364 | `capacity<0>` is 0; for N >= 1, 2^(capacity - 1) <= N < 2^capacity |
| IntKinds.SufficientRepr | include/fixed_point.h:371-373 | `sufficient_repr` has at least RequiredBits bits and is the narrowest supported size that does |
| IntKinds.SufficientBytes | include/fixed_point.h:371-373 | the byte count `1 << capacity<(bits + 7) / 8 - 1>` is a supported size with enough bits, and half of it would not have enough |
| IntKinds.Promoted | include/fixed_point.h:836-859 | integral promotion gives a kind of at least `int` size, as wide as the operand, that holds every value of it |
| IntKinds.UsualArithmetic | include/fixed_point.h:1095-1111 | the type of `_repr op rhs` is at least int-sized and as wide as both operands; when signed it holds both operands' values |
| Shifts.ShiftLeft | include/fixed_point.h:158-284 | `shift_left` gives a value of the output kind; its value in `Shifts.ShiftLeftIsScaled` and `Shifts.ShiftLeftMultiplies` |
| Shifts.ShiftRight | include/fixed_point.h:158-284 | `shift_right` gives a value of the output kind; its value in `Shifts.ShiftRightIsScaled` and `Shifts.ShiftRightDivides` |
| Shifts.ShiftLeftMultiplies | include/fixed_point.h:192-257 | for exponent N > 0, `shift_left` is i * 2^N reduced into the output kind, whatever the widths and the sign of i |
| Shifts.ShiftRightDivides | include/fixed_point.h:204-239 | for N > 0 and an input whose sign survives the cast, `shift_right` is floor(i / 2^N) reduced into the output kind |
| Shifts.ShiftRightWidensNegativeFirst | include/fixed_point.h:229-239 | a negative input widened into a larger unsigned output is cast before the shift, giving (2^bits + i) / 2^N |
| Shifts.ShiftLeftIsScaled | include/fixed_point.h:158-284 | `shift_left` of any exponent is the rescale by 2^exponent reduced into the output; a negative exponent floors, provided the cast keeps the input's sign |
| Shifts.ShiftRightIsScaled | include/fixed_point.h:158-284 | `shift_right` of any exponent is the rescale by 2^-exponent reduced into the output, provided a right shift's cast keeps the input's sign |
| Shifts.ShiftRightUndoesShiftLeft | include/fixed_point.h:158-284 | a right shift by N undoes a left shift by N that did not overflow |
| Shifts.ShiftFlip | include/fixed_point.h:259-284 | a negative exponent flips the direction with the negated exponent |
| FixedPoint.FractionalDigits | include/fixed_point.h:424-427 | fractional_digits is -exponent, and integer and fractional digits add up to digits |
| FixedPoint.FromData | include/fixed_point.h:519-523 | `from_data(x).data()` is x for every x of the representation type, and x modulo 2^bits otherwise |
| FixedPoint.ToBool | include/fixed_point.h:501-505 | `operator bool` is the non-zeroness of the representation; its meaning in `FixedPoint.ToBoolIsNonZero` |
| FixedPoint.ToBoolIsNonZero | include/fixed_point.h:501-505 | `operator bool` holds exactly when the value differs from the one built from integer 0 |
| FixedPoint.FromInteger | include/fixed_point.h:545-551 | the integer constructor gives a value of the requested type; its value in `FixedPoint.FromIntegerExact` and `FixedPoint.IntegerRoundTrip` |
| FixedPoint.ToInteger | include/fixed_point.h:553-559 | the conversion to an integer gives a value of the integer kind; round trip in `FixedPoint.ToIntegerRoundTrip` |
| FixedPoint.ConvertFixed | include/fixed_point.h:575-579 | the converting constructor gives a value of the target type; its value in `FixedPoint.ConvertScales`, round trip in `FixedPoint.ConvertRoundTrip` |
| FixedPoint.FromIntegerExact | include/fixed_point.h:442-447 | for exponent <= 0, the integer constructor stores v * 2^fractional_digits when that fits |
| FixedPoint.Less | include/fixed_point.h:787-833 | `<` (and `>`, `<=`, `>=` through it) on one type; it orders values as their integers in `FixedPoint.LessAgreesWithIntegers` |
| FixedPoint.Equal | include/fixed_point.h:787-833 | `==` (and `!=`) on one type; the heterogeneous `==` agrees with it in `Operators.MixedAgreesOnOneType` |
| FixedPoint.LessAgreesWithIntegers | include/fixed_point.h:787-833 | values built from integers compare as the integers do |
| FixedPoint.Negate | include/fixed_point.h:836-843 | unary `-` keeps the type; its value in `FixedPoint.NegateWraps`, involution in `FixedPoint.NegateInvolutive` |
| FixedPoint.Add | include/fixed_point.h:845-851 | binary `+` keeps the type; its value in `FixedPoint.AddWraps` and `FixedPoint.AddExact`, inverse in `FixedPoint.SubUndoesAdd` |
| FixedPoint.Sub | include/fixed_point.h:853-859 | binary `-` keeps the type; its value in `FixedPoint.SubWraps`, inverse in `FixedPoint.AddUndoesSub` |
| FixedPoint.NegateWraps | include/fixed_point.h:836-843 | unary `-` negates the representation modulo 2^bits |
| FixedPoint.AddWraps | include/fixed_point.h:845-851 | homogeneous `+` adds the representations modulo 2^bits |
| FixedPoint.SubWraps | include/fixed_point.h:853-859 | homogeneous `-` subtracts the representations modulo 2^bits |
| FixedPoint.NegateInvolutive | include/fixed_point.h:836-843 | negating twice gives the value back, the most negative one included |
| FixedPoint.SubUndoesAdd | include/fixed_point.h:845-859 | (a + b) - b == a, even when the sum wraps |
| FixedPoint.AddUndoesSub | include/fixed_point.h:845-859 | (a - b) + b == a, even when the difference wraps |
| FixedPoint.SubIsAddNegate | include/fixed_point.h:836-859 | on a signed type a - b == a + (-b) |
| FixedPoint.AddExact | include/fixed_point.h:845-851 | without overflow `+` is exact |
| FixedPoint.ConvertToSameKind | include/fixed_point.h:575-579 | converting to a value's own type changes nothing |
| FixedPoint.ConvertScales | include/fixed_point.h:575-579 | the converting constructor rescales the representation by 2^(from exponent - to exponent), floored and reduced into the target, whenever the cast keeps the sign |
| FixedPoint.ConvertRoundTrip | include/fixed_point.h:575-579 | converting to a type with more fractional digits that holds the value, and back, is the identity |
| FixedPoint.IntegerRoundTrip | include/fixed_point.h:545-559 | an integer converted to a type of exponent <= 0 and back is unchanged when it fits |
| FixedPoint.ToIntegerRoundTrip | include/fixed_point.h:488-492 | a value of exponent >= 0 converted to an integer kind that holds it, and back, is unchanged |
| TypeResolution.MakeFixed | include/fixed_point.h:590-598 | `make_fixed` has exactly IntegerDigits integer digits, at least FractionalDigits fractional digits, the narrowest sufficient size |
| TypeResolution.MakeUfixed | include/fixed_point.h:604-605 | `make_ufixed` is unsigned with exactly IntegerDigits integer digits and at least FractionalDigits fractional digits |
| TypeResolution.MakeFixedFromRepr | include/fixed_point.h:612-615 | `make_fixed_from_repr` keeps the representation and has exactly IntegerDigits integer digits |
| TypeResolution.MakeFixedFromReprOfOwnDigits | include/fixed_point.h:612-615 | every type is `make_fixed_from_repr` of its own integer digits |
| TypeResolution.PromoteResult | include/fixed_point.h:623-626 | `promote_result` doubles the fractional digits and gives 2 * integer_digits + sign bit integer digits |
| TypeResolution.DemoteResult | include/fixed_point.h:642-645 | `demote_result` keeps the signedness, halves the bits and halves the exponent to within one (C++ division) |
| TypeResolution.DemotePromoteResult | include/fixed_point.h:623-645 | demoting a promoted type gives it back; promoting a demoted one does exactly when the exponent is even |
| TypeResolution.CommonType | include/fixed_point.h:681-689 | the common type of two fixed-point types has the larger integer digits, the larger size, and is signed if either is |
| TypeResolution.CommonTypeSymmetric | include/fixed_point.h:681-689 | the common type does not depend on operand order, and a type's common type with itself is itself |
| TypeResolution.CommonOperandType | include/fixed_point.h:693-718 | a fixed-point type and an integer type, in either order, resolve to the fixed-point type |
| TypeResolution.CommonOperandTypeSymmetric | include/fixed_point.h:677-726 | `_common_type` is symmetric for every pair it is defined on |
| TypeResolution.TruncAddResult | include/fixed_point.h:1131-1136 | `trunc_add_result` keeps the representation and adds capacity(N - 1) integer digits, so 2^(exponent shift) >= N |
| TypeResolution.TruncSubtractResult | include/fixed_point.h:1151-1154 | signed, of the larger size, with one integer digit more than either operand |
| TypeResolution.TruncMultiplyResult | include/fixed_point.h:1169-1172 | the common representation, with the sum of the operands' integer digits |
| TypeResolution.TruncDivideResult | include/fixed_point.h:1189-1192 | the common representation, with dividend integer digits + divisor fractional digits |
| TypeResolution.TruncReciprocalResult | include/fixed_point.h:1209-1212 | the same representation with fractional_digits + 1 integer digits |
| TypeResolution.TruncSquareResult | include/fixed_point.h:1234-1237 | unsigned, same size, twice the integer digits |
| TypeResolution.TruncSqrtResult | include/fixed_point.h:1255-1258 | unsigned, same size, about half the integer digits: (integer_digits + 1) / 2 with C++ division, so twice it is integer_digits, integer_digits + 1 or integer_digits + 2 |
| TypeResolution.PromoteMultiplyResult | include/fixed_point.h:1295-1296 | twice the size of the common type and twice its fractional digits |
| TypeResolution.PromoteDivideResult | include/fixed_point.h:1313-1314 | twice the size of the common type and twice its fractional digits |
| TypeResolution.PromoteSquareResult | include/fixed_point.h:1332-1335 | unsigned, twice the integer digits, at least twice the fractional digits, at most twice the size |
| SquareRoot.SqrtBit | include/fixed_point.h:378-384 | `sqrt_bit` never returns more than its starting bit; the largest power of four in `SquareRoot.SqrtBitIsLargestPowerOfFour` |
| SquareRoot.SqrtSolve3 | include/fixed_point.h:386-397 | the digit-by-digit step; the root it reaches in `SquareRoot.SqrtSolve3IsRoot` |
| SquareRoot.SqrtSolve1 | include/fixed_point.h:399-403 | `sqrt_solve1` from the default starting bit; the integer root in `SquareRoot.SqrtSolve1IsRoot` |
| SquareRoot.SqrtBitIsLargestPowerOfFour | include/fixed_point.h:378-384 | from a power of four above n / 4, `sqrt_bit(n)` is the largest power of four <= n, or 0 when n is 0 |
| SquareRoot.SqrtSolve3IsRoot | include/fixed_point.h:386-397 | each step of `sqrt_solve3` keeps result = p * scale and p^2 * scale <= N < (p + 1)^2 * scale, so it ends at the integer root |
| SquareRoot.SqrtSolve1IsRoot | include/fixed_point.h:399-403 | `sqrt_solve1(n)` is r >= 0 with r^2 <= n < (r + 1)^2, for every n >= 0 of its type |
| SquareRoot.StartingBit | include/fixed_point.h:378-381 | the default starting bit `1 << (num_bits - 2)` is a power of four above a quarter of every value |
| Promotion.Promote | include/fixed_point.h:623-634 | `promote` gives a value of `promote_result`; its value in `Promotion.PromoteIsLossless` and `Promotion.PromoteFloors` |
| Promotion.Demote | include/fixed_point.h:642-653 | `demote` gives a value of `demote_result`; it undoes `promote` in `Promotion.PromoteIsLossless` |
| Promotion.PromoteIsLossless | include/fixed_point.h:623-653 | for fractional digits from 0 up to digits + sign bit (the type's bits), `promote` multiplies the representation by 2^fractional_digits, and `demote` gives the value back |
| Promotion.PromoteFloors | include/fixed_point.h:623-653 | for exponent e > 0, `promote` floors the representation by 2^e, keeps the value exactly when 2^e divides the representation, and then `demote` gives it back |
| Promotion.PromoteOfTwelveLosesIt | include/fixed_point.h:623-653 | 12 as `fixed_point<int8_t, 2>` (raw 3) promotes to raw 0 of `fixed_point<int16_t, 4>` and demotes to 0 |
| Multiplication.Intermediate | include/fixed_point.h:735 | the intermediate type `next_size` of the common representation holds both operands |
| Multiplication.ProductFits | include/fixed_point.h:731-739 | the product of the two representations always fits the intermediate type, and its promoted type computes it exactly |
| Multiplication.Multiply | include/fixed_point.h:731-739 | `multiply` gives a value of the requested result type; its value in `Multiplication.MultiplyScales` and `Multiplication.MultiplyWithoutWrap` |
| Multiplication.MultiplyScales | include/fixed_point.h:731-739 | `multiply` is the exact product shifted by lhs exponent + rhs exponent - result exponent, floored, reduced into the result |
| Multiplication.MultiplyCommutes | include/fixed_point.h:731-739 | `multiply` does not depend on the operand order |
| Multiplication.MultiplyWithoutWrap | include/fixed_point.h:731-739 | `multiply` into a type no wider than the intermediate one, of a product whose rescale fits that type, is exactly the rescaled product |
| Multiplication.TruncMultiply | include/fixed_point.h:1170-1182 | `trunc_multiply` gives a value of `trunc_multiply_result`; its value in `Multiplication.TruncMultiplyOtherwiseExact` |
| Multiplication.TruncMultiplyOtherwiseExact | include/fixed_point.h:1170-1182 | except for the product of two signed minimums, `trunc_multiply` never wraps: it is the product of the representations floored by 2^(lhs digits + rhs digits - result digits) |
| Multiplication.TruncMultiplyOfMinimumsWraps | include/fixed_point.h:1170-1182 | as written, the product of two signed minimums comes out as the result type's minimum, a negative value |
| Multiplication.ExactTruncMultiplyResult | include/fixed_point.h:1170-1172 | the corrected result type: the common representation with one integer digit more when both operands are signed |
| Multiplication.ExactTruncMultiplyIsExact | include/fixed_point.h:1176-1182 | with the corrected type every product, two minimums included, is the product floored by 2^(lhs digits + rhs digits + sign bit - result digits) |
| Multiplication.PromoteMultiply | include/fixed_point.h:1296-1306 | `promote_multiply` gives a value of `promote_multiply_result`; its value in `Multiplication.PromoteMultiplyIsExact` |
| Multiplication.PromoteMultiplyIsExact | include/fixed_point.h:1296-1305 | `promote_multiply` never wraps: it is the product of the representations rescaled to the result's exponent, and exactly that product for operands of one type |
| Division.Intermediate | include/fixed_point.h:751-755 | the intermediate type has the integer digits, at least the fractional digits and the signedness the header asks for |
| Division.DividendIsExact | include/fixed_point.h:751-761 | when the divisor has integer and fractional digits >= 0, the dividend converts to the intermediate type exactly |
| Division.Divide | include/fixed_point.h:744-762 | `divide` gives a value of the requested result type; its value in `Division.DivideScales` and `Division.DivideWithoutWrap` |
| Division.DivideScales | include/fixed_point.h:744-762 | `divide` is the truncated quotient of the converted dividend and the divisor, shifted into the result and floored |
| Bits.TruncDiv | include/fixed_point.h:761 | C++ `/` on integers; its quotient and remainder in `Bits.TruncDivRemainder` |
| Bits.TruncDivRemainder | include/fixed_point.h:761 | C++ `/` truncates: the remainder is smaller than the divisor in magnitude and is zero or has the dividend's sign |
| Division.DivideWithoutWrap | include/fixed_point.h:744-762 | for a divisor of integer and fractional digits >= 0 and a result with lhs's integer digits plus rhs's fractional digits (one more when lhs may be its minimum and rhs -1), `divide` is `ExactQuotient`: lhs's representation at the intermediate exponent, divided truncating by rhs's, rescaled |
| Division.DivideByMinusOne | include/fixed_point.h:744-762 | dividing by a representation of -1 gives the negated dividend reduced into the quotient type, rescaled into the result |
| Division.TruncDivide | include/fixed_point.h:1190-1202 | `trunc_divide` gives a value of `trunc_divide_result`; its value in `Division.TruncDivideOtherwiseExact` |
| Division.TruncDivideOtherwiseExact | include/fixed_point.h:1190-1202 | except for lhs's minimum divided by -1, `trunc_divide` never wraps: it is `ExactQuotient` |
| Division.TruncDivideOfMinimumByMinusOneWraps | include/fixed_point.h:1190-1202 | as written, lhs's minimum divided by -1 comes out as the result type's minimum, a negative value |
| Division.ExactTruncDivideResult | include/fixed_point.h:1190-1192 | the corrected result type: the common representation with one integer digit more when both operands are signed |
| Division.ExactTruncDivideIsExact | include/fixed_point.h:1196-1202 | with the corrected type every quotient, lhs's minimum by -1 included, is `ExactQuotient` |
| Division.TruncReciprocal | include/fixed_point.h:1210-1226 | `trunc_reciprocal` gives a value of `trunc_reciprocal_result`; its value in `Division.TruncReciprocalIsExact` |
| Division.TruncReciprocalIsExact | include/fixed_point.h:1210-1226 | `trunc_reciprocal` never wraps: it is 2^f divided truncating by the representation, f the intermediate's fractional digits, rescaled |
| Division.PromoteDivide | include/fixed_point.h:1314-1324 | `promote_divide` gives a value of `promote_divide_result`; its value in `Division.PromoteDivideWithinRange` |
| Division.PromoteDivideWithinRange | include/fixed_point.h:1314-1323 | `promote_divide` is `ExactQuotient` whenever the promoted type has at least lhs's integer digits plus rhs's fractional digits, lhs's minimum by -1 excepted |
| Division.PromoteDivideCanWrap | include/fixed_point.h:1314-1323 | otherwise `promote_divide` can wrap: 0.5 / 2^-7 in `fixed_point<int8_t, -7>` comes out 0 |
| Division.DivideByPositiveInteger | include/fixed_point.h:744-762 | dividing a value >= 0 by a positive integer of exponent 0 into its own type floors the representation |
| Division.DivisionOfNegativeIntegersFloors | include/fixed_point.h:744-762 | for `fixed_point<int32_t, 0>`, -7 / 2 is -4: the quotient floors |
| Division.ReciprocalOfFour | include/fixed_point.h:1209-1226 | `trunc_reciprocal` of 4 as `fixed_point<int8_t, -4>` is 1/4 at exponent -2 |
| Addition.AddAll | include/fixed_point.h:767-779 | the `add` fold gives a value of the result type; its value in `Addition.AddAllWraps` |
| Addition.AddAllWraps | include/fixed_point.h:767-779 | the `add` fold is the sum of the addends converted to the result type, reduced modulo 2^bits |
| Addition.CastSumIsFloored | include/fixed_point.h:1138-1144 | each addend converted to `trunc_add_result` is its representation floored by 2^capacity(N - 1) |
| Addition.FlooredSumBracket | include/fixed_point.h:1138-1144 | 2^c times the floored sum is at most the exact sum, and short of it by less than N * 2^c |
| Addition.TruncAdd | include/fixed_point.h:1131-1144 | `trunc_add` gives a value of `trunc_add_result`; its value in `Addition.TruncAddIsExact` |
| Addition.TruncAddIsExact | include/fixed_point.h:1131-1144 | `trunc_add` never wraps: it is the floored sum, within N * (2^c - 1) of the exact sum |
| Addition.FlooredSumFits | include/fixed_point.h:1131-1136 | the floored sum of N addends fits the representation type |
| Addition.TruncSubtract | include/fixed_point.h:1151-1162 | `trunc_subtract` gives a value of `trunc_subtract_result`; its value in `Addition.TruncSubtractIsExact` |
| Addition.TruncSubtractIsExact | include/fixed_point.h:1151-1162 | `trunc_subtract` never wraps: it is the difference of the two operands rescaled to the result exponent |
| Operators.AsFixed | include/fixed_point.h:991-1030 | `fixed_point<Integer>(v)` has exponent 0 and representation v |
| Operators.MixedEqual | include/fixed_point.h:898-912 | heterogeneous `==` and `!=` compare both operands cast to `_common_type`; properties in `Operators.MixedOperandsSwap`, `Operators.MixedAgreesOnOneType` and `Operators.MixedEqualToInteger` |
| Operators.MixedLess | include/fixed_point.h:914-944 | heterogeneous `<` and `>=` likewise; same lemmas |
| Operators.MixedGreater | include/fixed_point.h:922-944 | heterogeneous `>` and `<=` are `<` with the casts swapped, as `Operators.MixedOperandsSwap` states |
| Operators.MixedAdd | include/fixed_point.h:949-957 | heterogeneous `+` gives a value of `_common_type`; it commutes and agrees with `+` on one type (`Operators.MixedOperandsSwap`, `Operators.MixedAgreesOnOneType`) |
| Operators.MixedSub | include/fixed_point.h:959-967 | heterogeneous `-` gives a value of `_common_type`; it agrees with `-` on one type (`Operators.MixedAgreesOnOneType`) |
| Operators.FixedTimesFixed | include/fixed_point.h:970-978 | fixed `*` fixed gives a value of the common type: `multiply`, whose value is in `Multiplication.MultiplyScales` |
| Operators.FixedOverFixed | include/fixed_point.h:980-988 | fixed `/` fixed gives a value of the common type; its value in `Operators.FixedOverFixedWithoutWrap` |
| Operators.FixedTimesInteger | include/fixed_point.h:991-999 | fixed `*` integer keeps the fixed-point type; its value in `Operators.FixedTimesIntegerWraps` |
| Operators.IntegerTimesFixed | include/fixed_point.h:1012-1020 | integer `*` fixed keeps the fixed-point type; its value in `Operators.FixedTimesIntegerWraps` |
| Operators.FixedOverInteger | include/fixed_point.h:1001-1009 | fixed `/` integer keeps the fixed-point type; its value in `Operators.FixedOverPositiveInteger` |
| Operators.IntegerOverFixed | include/fixed_point.h:1022-1030 | integer `/` fixed keeps the fixed-point type; its value in `Operators.IntegerOverFixedWithoutWrap` |
| Operators.MixedOperandsSwap | include/fixed_point.h:898-967 | swapping the operands of a heterogeneous operator: `==` is symmetric, `>` is `<` swapped, `+` commutes |
| Operators.MixedAgreesOnOneType | include/fixed_point.h:898-967 | on one fixed-point type the heterogeneous operators agree with the homogeneous ones |
| Operators.MixedEqualToInteger | include/fixed_point.h:898-920 | a value equals (is below) an integer it can hold exactly when its representation is (is below) the integer * 2^fractional_digits |
| Operators.FixedTimesIntegerWraps | include/fixed_point.h:991-1020 | fixed * integer and integer * fixed keep the exponent and multiply the representation modulo 2^bits |
| Operators.FixedOverPositiveInteger | include/fixed_point.h:1001-1009 | a value >= 0 divided by a positive integer is the representation divided by it, floored |
| Operators.FixedOverFixedWithoutWrap | include/fixed_point.h:980-988 | fixed `/` fixed is `ExactQuotient` when the divisor's integer and fractional digits are >= 0 and the common type has lhs's integer digits plus rhs's fractional digits, one more for lhs's minimum by -1 |
| Operators.IntegerOverFixedWithoutWrap | include/fixed_point.h:1022-1030 | integer `/` fixed is `ExactQuotient` when the divisor's integer and fractional digits are >= 0, it is signed if the integer is, and its integer digits hold the integer's digits plus its own fractional digits, one more for the integer's minimum by -1 |
| Operators.ScaleByInteger | include/fixed_point.h:1095-1102 | member `*=` by an integer keeps the type; its value in `Operators.ScaleByIntegerWraps` |
| Operators.DivideByInteger | include/fixed_point.h:1104-1111 | member `/=` by an integer keeps the type; its value in `Operators.DivideByIntegerTruncates` |
| Operators.ScaleByIntegerWraps | include/fixed_point.h:1095-1102 | member `*=` by an integer multiplies the representation modulo 2^bits and agrees with `*` |
| Operators.DivideByIntegerTruncates | include/fixed_point.h:1104-1111 | member `/=` by an integer, when the operands meet in a signed type, is C++ division rounding toward zero; for a value >= 0 and a positive divisor it agrees with `/` |
| Operators.DivideByIntegerOfMinusSeven | include/fixed_point.h:1104-1111 | for `fixed_point<int32_t, 0>`, -7 /= 2 gives -3 |
| Squares.TruncSquare | include/fixed_point.h:1234-1247 | `trunc_square` gives a value of `trunc_square_result`; its value in `Squares.TruncSquareShift` and `Squares.TruncSquareOtherwiseExact` |
| Squares.TruncSquareShift | include/fixed_point.h:1241-1247 | `trunc_square` floors the square of the representation by 2^(digits - sign bit), modulo 2^bits |
| Squares.TruncSquareOfMinimumIsZero | include/fixed_point.h:1234-1247 | as written, the square of a signed type's most negative value is 0 |
| Squares.TruncSquareOtherwiseExact | include/fixed_point.h:1234-1247 | every other root squares without wrapping |
| Squares.ExactTruncSquareResult | include/fixed_point.h:1234-1237 | the corrected result type: 2 * integer_digits + sign bit integer digits, unsigned |
| Squares.ExactTruncSquareIsExact | include/fixed_point.h:1241-1247 | with the corrected type every root squares exactly: the square floored by 2^digits |
| Squares.PromoteSquare | include/fixed_point.h:1332-1348 | `promote_square` gives a value of `promote_square_result`; its value in `Squares.SquareIntoWraps` and `Squares.PromoteSquareOtherwiseExact` |
| Squares.SquareIntoWraps | include/fixed_point.h:1339-1348 | the `promote_square` body is the square times 2^shift modulo 2^bits, through both casts and the promoted product |
| Squares.PromoteSquareShift | include/fixed_point.h:1332-1348 | the shift is the output bits minus twice the root's digits, never negative |
| Squares.PromoteSquareOfMinimumIsZero | include/fixed_point.h:1332-1348 | as written, `promote_square` of a signed type's most negative value is 0 |
| Squares.PromoteSquareOtherwiseExact | include/fixed_point.h:1332-1348 | every other root squares exactly |
| Squares.ExactPromoteSquareResult | include/fixed_point.h:1332-1335 | the corrected result type: one integer digit more for a signed root |
| Squares.ExactPromoteSquareIsExact | include/fixed_point.h:1339-1348 | with the corrected type every root squares exactly |
| FixedSqrt.Sqrt | include/fixed_point.h:1116-1124 | `sqrt` keeps the type; the floor root in `FixedSqrt.SqrtIsRoot` |
| FixedSqrt.TruncSqrt | include/fixed_point.h:1255-1268 | `trunc_sqrt` gives a value of `trunc_sqrt_result`; its value in `FixedSqrt.TruncSqrtIsLossless` |
| FixedSqrt.SqrtIsRoot | include/fixed_point.h:1116-1124 | for x >= 0 whose fractional digits lie in [0, digits], `sqrt` is the floor root: r^2 <= x.repr * 2^fractional_digits < (r + 1)^2 |
| FixedSqrt.TruncSqrtIsLossless | include/fixed_point.h:1262-1268 | `trunc_sqrt` shifts that root left by floor(integer_digits / 2) + sign bit without loss, and converting back gives `sqrt` |
| TruncShift.TruncShiftLeft | include/fixed_point.h:1273-1278 | `trunc_shift_left<n>` adds n to the exponent; it keeps `data()` in `TruncShift.TruncShiftsAreInverse` |
| TruncShift.TruncShiftRight | include/fixed_point.h:1283-1288 | `trunc_shift_right<n>` subtracts n from the exponent; it keeps `data()` in `TruncShift.TruncShiftsAreInverse` |
| TruncShift.TruncShiftsAreInverse | include/fixed_point.h:1273-1288 | both shifts keep `data()`; each undoes the other; shifting left by n is shifting right by -n |
| TruncShift.TruncShiftLeftScales | include/fixed_point.h:1273-1278 | `trunc_shift_left<n>` converted back to the original type is the representation times 2^n, exactly when it fits |
| Assignment.FixedPointVariable.constructor | include/fixed_point.h:456-461 | the object holds the value it is constructed from |
| Assignment.FixedPointVariable.AssignInteger | include/fixed_point.h:463-469 | `= integer` stores `integral_to_repr` of it |
| Assignment.FixedPointVariable.AssignFixed | include/fixed_point.h:479-485 | `= fixed_point` stores the converted value, and a value of the same type unchanged |
| Assignment.FixedPointVariable.AddAssign | include/fixed_point.h:861-867 | `+=` stores lhs + rhs: the representations added modulo 2^bits |
| Assignment.FixedPointVariable.SubAssign | include/fixed_point.h:869-875 | `-=` stores lhs - rhs: the representations subtracted modulo 2^bits |
| Assignment.FixedPointVariable.MultiplyAssign | include/fixed_point.h:877-883 | `*=` stores `multiply` of the old value and rhs into the same type |
| Assignment.FixedPointVariable.DivideAssign | include/fixed_point.h:885-891 | `/=` stores `divide` of the old value and rhs into the same type |
| Assignment.FixedPointVariable.AddAssignOperand | include/fixed_point.h:1083-1087 | heterogeneous `+=` adds the operand converted to the object's type |
| Assignment.FixedPointVariable.SubAssignOperand | include/fixed_point.h:1089-1093 | heterogeneous `-=` subtracts the operand converted to the object's type |
| Assignment.FixedPointVariable.ScaleAssign | include/fixed_point.h:1095-1102 | member `*=` by an integer stores the representation times the integer modulo 2^bits |
| Assignment.FixedPointVariable.DivideAssignInteger | include/fixed_point.h:1104-1111 | member `/=` by an integer stores the quotient rounded toward zero when the operands meet in a signed type |

## Left out

- Floating point: `make_float`, `pow2`, the floating-point constructor, assignment and conversion, `one` and
  `inverse_one`, the fixed/float common type, the fixed/float operators, and a floating-point right operand
  of the member `*=` and `/=`. These are floating-point numerics.
- `include/cnl/_impl/terminate.h` is not part of this model. It prints and aborts.
- The `enable_if` overload selection, the `is_integral` specialisations and the `static_assert` checks
  are not modelled as code. They become preconditions: `Valid()` kinds, a signed type for unary `-`,
  addends of one type for `trunc_add`, digit counts >= 0 for `make_fixed`.
- The `__int128` availability macro. The 16-byte kinds are assumed to exist, and `next_size` of a 16-byte
  kind is excluded by precondition.
- Undefined behaviour. Signed overflow, the negation of the most negative value and shifts into the sign
  bit are modelled as two's-complement `Wrap`, not as undefined. This includes the product in
  `promote_square` for an 8-bit signed root: its two `uint16_t` factors are multiplied as `int` and can
  exceed it. The model reduces that product modulo 2^32, which leaves the result modulo 2^16 unchanged.
- Division by zero. `divide` and the `/` operators require a non-zero divisor.
- Shift counts. `shift_left` and `shift_right` shift by the exponent with `<<` and `>>`
  (include/fixed_point.h:201, 213, 226, 238). A count at least as wide as the promoted type is undefined
  behaviour in C++. The model shifts mathematically instead: `<<` is multiplication by 2^N reduced into
  the kind, and `>>` is floor division by 2^N, so a wide right shift gives 0 or -1.
- The most negative value divided by -1. `operator/=` by an integer (include/fixed_point.h:1109) and the
  `/` inside `divide` (include/fixed_point.h:761) overflow when the operands meet in `int` or a wider
  signed type. That is undefined behaviour. The model takes the two's-complement outcome: the quotient is
  reduced with `Wrap`, so it comes out as the minimum again (`Division.DivideByMinusOne`).
- The default constructor, which leaves `_repr` uninitialised.
- The arithmetic inside `sqrt_solve3` runs on unbounded integers. The model does not prove that
  `result + bit` stays within the representation type.
- FixedSqrt.Sqrt: `sqrt` of a negative value never terminates, so the promoted representation must be >= 0.
- FixedSqrt.SqrtIsRoot: stated for values >= 0 of types whose fractional digits lie between 0 and their
  digits. `promote` is lossless one digit further, up to digits + sign bit (`Promotion.PromoteIsLossless`),
  but the root proof does not cover that last digit. Elsewhere `sqrt` is modelled but its root property
  is not proved.
- FixedSqrt.TruncSqrtIsLossless: stated, like FixedSqrt.SqrtIsRoot, for types whose fractional digits lie
  between 0 and their digits.
- Promotion.PromoteIsLossless: stated for fractional digits from 0 up to digits + sign bit. With more, the
  rescaled representation does not fit the doubled type and wraps. For a positive exponent e, `promote`
  loses the low e bits, because `promote_result` doubles the exponent: `Promotion.PromoteFloors` gives the
  floored value, and `Promotion.PromoteOfTwelveLosesIt` shows 12 as `fixed_point<int8_t, 2>` coming back
  from `promote` and `demote` as 0.
- Addition.TruncAddIsExact: for a signed representation it is stated for at most 2^digits addends. With more
  addends, every negative addend floors to -1 and the sum of the floors itself can overflow.
- Squares.PromoteSquare: `promote_square` is modelled for types whose fractional digits lie between 0 and their
  digits. Outside that range `make_ufixed` would be asked for a negative digit count.
- TypeResolution.PromoteSquareResult: stated under the same restriction as Squares.PromoteSquare.
- Division.DivideWithoutWrap: proved only for a divisor whose integer and fractional digits are both >= 0.
  Otherwise the conversion of the dividend into the intermediate type may drop bits.
- Division.TruncDivideOtherwiseExact: proved under the same restriction on the divisor.
- Division.ExactTruncDivideIsExact: proved under the same restriction on the divisor.
- Division.TruncReciprocalIsExact: proved under the same restriction on its operand.
- Division.PromoteDivideWithinRange: proved under the same restriction on the divisor. It also needs the
  promoted type to have lhs's integer digits plus rhs's fractional digits. Without them `promote_divide`
  can wrap (`Division.PromoteDivideCanWrap`).
- Multiplication and division are specified for representations of at most 8 bytes, because
  `next_size` of a 16-byte type does not exist.

## Findings

| source | as written | input that shows it | evidently intended | confidence | as-written member | corrected member |
|---|---|---|---|---|---|---|
| include/fixed_point.h:1234-1237 | `trunc_square_result` gives the square 2 * integer_digits integer digits | `trunc_square` of -1 as `fixed_point<int8_t, -7>` (the most negative value, -128): the square is 1, i.e. 2^(2 * 0) in a type of 0 integer digits, whose largest value is 255/256; the result is 0 | 2 * integer_digits + 1 integer digits for a signed root, which holds the square of every root | not executed | Squares.TruncSquareOfMinimumIsZero | Squares.ExactTruncSquareIsExact |
| include/fixed_point.h:1332-1335 | `promote_square_result` is `make_ufixed<2 * integer_digits, 2 * fractional_digits>` | `promote_square` of -1 as `fixed_point<int8_t, -7>`: the square 1 needs one integer digit, the result type `make_ufixed<0, 14>` has none; the result is 0 | `make_ufixed<2 * integer_digits + 1, 2 * fractional_digits>` for a signed root | not executed | Squares.PromoteSquareOfMinimumIsZero | Squares.ExactPromoteSquareIsExact |
| include/fixed_point.h:1170-1172 | `trunc_multiply_result` gives the product lhs integer digits + rhs integer digits | `trunc_multiply` of -1 by -1, both `fixed_point<int8_t, -7>` (raw -128 each): the product 1 needs one integer digit, the result type has none; the result is -1 | one integer digit more when both operands are signed, which holds the product of two minimums | not executed | Multiplication.TruncMultiplyOfMinimumsWraps | Multiplication.ExactTruncMultiplyIsExact |
| include/fixed_point.h:1190-1192 | `trunc_divide_result` gives the quotient lhs integer digits + rhs fractional digits | `trunc_divide` of -128 by -1, both `fixed_point<int8_t, 0>`: the quotient 128 needs 8 integer digits, the result type has 7; the result is -128 | one integer digit more when both operands are signed, which holds the minimum divided by -1 | not executed | Division.TruncDivideOfMinimumByMinusOneWraps | Division.ExactTruncDivideIsExact |
