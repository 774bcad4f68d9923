# Generic integer algorithms of the crypto3 multiprecision library

This project models, in Dafny, the generic integer algorithms of the crypto3
multiprecision library and proves what they compute. These algorithms work on any
builtin or multiprecision integer type. They are:

- the cast-and-apply wrappers `add`, `subtract` and `multiply`;
- `divide_qr` and `integer_modulus`;
- modular exponentiation `powm`, in its unsigned and signed overloads;
- `lsb` and `msb`;
- the single-bit operations `bit_test`, `bit_set`, `bit_unset` and `bit_flip`;
- the bit-by-bit integer square root `sqrt`, with and without a remainder.

It also models two small helpers:

- the decimal/binary precision conversions `digits10_2_2` and `digits2_2_10`;
- the decision rule that classifies a conversion between number categories as lossy
  or restricted to explicit use.

Values are mathematical integers. A C++ integer type is an `IntType`: unbounded,
or unsigned or signed of some width. Every conversion in the source that can
change a value is explicit in the model. A narrowing or `static_cast` is a
`Cast`: the value itself when it fits, otherwise its representative modulo
`2^width`. An `int` bit index passed as `unsigned` is `ToUnsigned`. The other
conversions leave the value unchanged under the stated preconditions, so the
model does not write them out. These are `int g = msb(x)`, the conversion of a
non-negative signed exponent to unsigned in `powm`, the usual arithmetic
conversions in `result % c` and `x % c` with non-negative operands, and the
integral promotion of a mask before `<<=` and `~`. C++ `/` and `%` truncate toward zero, and
are modelled as `TruncDiv` and `TruncMod`. Exceptions become the `Err` case of a
`Result`.

The model is split into five files:

- `bits.dfy`: bits of a non-negative integer and the operators `|`, `&`, `^`
  and `~`, each with a lemma saying what it does to every bit.
- `native_types.dfy`: integer types, casts, truncating division and the
  conversion of an `int` to `unsigned`.
- `integer.dfy`: the algorithms of `integer.hpp`. `powm` and `sqrt` are
  methods with the source's loops and loop invariants. Each is proved against a
  specification: `a^b mod c` for `powm`, and the root-and-remainder predicate
  `IsIntegerRoot` for `sqrt`.
- `digits.dfy`: the two precision conversions in 64-bit `unsigned long`
  arithmetic, wrap-around included.
- `restricted_conversion.dfy`: the lossy and restricted conversion rules.

## Model

| member | source | states |
|---|---|---|
| `NativeTypes.Cast` | include/nil/crypto3/multiprecision/integer.hpp:21 | `static_cast` to a type gives a value of that type, congruent to the input modulo `2^width`, and equal to it when it fits |
| `NativeTypes.TruncDivMod` | include/nil/crypto3/multiprecision/integer.hpp:44-45 | C++ `x / y` and `x % y` satisfy `q*y + r == x`, `|r| < |y|`, and `r` is zero or has the sign of `x` |
| `NativeTypes.ToUnsigned` | include/nil/crypto3/multiprecision/integer.hpp:247-249 | an `int` bit index passed as `unsigned` keeps its value when non-negative and becomes `2^32 + i` when negative |
| `Bits.BitOr` | include/nil/crypto3/multiprecision/integer.hpp:182 | every bit of `a | b` is the or of the bits of `a` and `b` |
| `Bits.BitAnd` | include/nil/crypto3/multiprecision/integer.hpp:169 | every bit of `a & b` is the and of the bits of `a` and `b` |
| `Bits.BitXor` | include/nil/crypto3/multiprecision/integer.hpp:210 | every bit of `a ^ b` is the exclusive or of the bits of `a` and `b` |
| `Bits.BitComplement` | include/nil/crypto3/multiprecision/integer.hpp:196 | `~m` on an `n`-bit value has exactly the bits below `n` that `m` lacks |
| `Integer.Multiply` | include/nil/crypto3/multiprecision/integer.hpp:20-21 | the result is the product of the operands cast to the result type, held in that type: exact when it fits, else reduced modulo `2^width` |
| `Integer.Add` | include/nil/crypto3/multiprecision/integer.hpp:28-29 | the same for the sum |
| `Integer.Subtract` | include/nil/crypto3/multiprecision/integer.hpp:36-37 | the same for the difference |
| `Integer.DivideQr` | include/nil/crypto3/multiprecision/integer.hpp:43-46 | for `y != 0`: `q*y + r == x`, `|r| < |y|`, and `r` is zero or has the sign of `x` |
| `Integer.DivideQrDetermined` | include/nil/crypto3/multiprecision/integer.hpp:43-46 | those three facts determine `q` and `r`: no other pair satisfies them |
| `Integer.IntegerModulus` | include/nil/crypto3/multiprecision/integer.hpp:53-54 | for `x >= 0` and `val > 0`, the result is `x mod val` and fits the type of `val` |
| `Integer.PowmLoopCorrect` | include/nil/crypto3/multiprecision/integer.hpp:101-108 | the loop keeps `x * y^b` congruent modulo `c`, so it ends with `x == a^b` modulo `c`, provided the residues fit the type of `a` |
| `Integer.Powm` | include/nil/crypto3/multiprecision/integer.hpp:95-111 | the result is below `c` and fits the type of `a`; it is `1 % c` for `b == 0`, and `a^b mod c` whenever `c <= 2^w`; in every case it is the residue the loop computes, `PowmLoop` |
| `Integer.PowmSigned` | include/nil/crypto3/multiprecision/integer.hpp:120-125 | a negative exponent is an error; otherwise the result is that of the unsigned `powm` |
| `Integer.Lsb` | include/nil/crypto3/multiprecision/integer.hpp:132-142 | zero is the "no bits set" error and a negative value the "negative value" error; otherwise the index of a set bit with no set bit below it |
| `Integer.Msb` | include/nil/crypto3/multiprecision/integer.hpp:148-158 | the same errors; otherwise the index `m` with `2^m <= val < 2^(m+1)` |
| `Integer.MsbIsHighestSetBit` | include/nil/crypto3/multiprecision/integer.hpp:148-157 | the index `msb` returns is a set bit and no bit above it is set |
| `Integer.LsbAtMostMsb` | include/nil/crypto3/multiprecision/integer.hpp:132-157 | for a positive value `lsb <= msb` |
| `Integer.ShiftLeft` | include/nil/crypto3/multiprecision/integer.hpp:246 | a left shift on a `w`-bit unsigned value is the `w`-bit value congruent to `v * 2^n` modulo `2^w`, which is exactly `v * 2^n` when that fits |
| `Integer.Mask` | include/nil/crypto3/multiprecision/integer.hpp:164-168 | the mask built from an index below the width is `2^index` |
| `Integer.BitTest` | include/nil/crypto3/multiprecision/integer.hpp:163-170 | true exactly when the index is below the width and that bit of `val` is set |
| `Integer.BitSet` | include/nil/crypto3/multiprecision/integer.hpp:176-184 | an index at or beyond the width leaves `val` unchanged; otherwise exactly that bit is set and every other bit is kept |
| `Integer.BitUnset` | include/nil/crypto3/multiprecision/integer.hpp:190-198 | the same, with exactly that bit cleared |
| `Integer.BitFlip` | include/nil/crypto3/multiprecision/integer.hpp:204-212 | the same, with exactly that bit toggled |
| `Integer.BitSetIdempotent` | include/nil/crypto3/multiprecision/integer.hpp:176-184 | setting a bit twice is setting it once |
| `Integer.BitUnsetIdempotent` | include/nil/crypto3/multiprecision/integer.hpp:190-198 | clearing a bit twice is clearing it once |
| `Integer.BitFlipInvolution` | include/nil/crypto3/multiprecision/integer.hpp:204-212 | toggling a bit twice restores the value |
| `Integer.BitTestAfterUpdate` | include/nil/crypto3/multiprecision/integer.hpp:163-212 | `bit_test` after `bit_set`, `bit_unset` or `bit_flip` reports the bit as set, clear or toggled |
| `Integer.BitSetClearBit` | include/nil/crypto3/multiprecision/integer.hpp:176-183 | setting a bit that is clear adds `2^index` |
| `Integer.IntegerRootIsFloor` | include/nil/crypto3/multiprecision/integer.hpp:218-254 | a root and remainder pair `s*s + r == x`, `r <= 2s` is exactly `s = floor(sqrt(x))` with `r = x - s*s` |
| `Integer.IntegerRootUnique` | include/nil/crypto3/multiprecision/integer.hpp:218-254 | at most one root and remainder pair fits a value |
| `Integer.SqrtInit` | include/nil/crypto3/multiprecision/integer.hpp:237-243 | setting bit `msb(x)/2` of the root and subtracting its square establishes the loop invariant, and `x < 4` exactly when that bit is bit 0 |
| `Integer.SqrtTrial` | include/nil/crypto3/multiprecision/integer.hpp:245-247 | the trial value `(s << (g+1)) | 2^(2g)` is `(s + 2^g)^2 - s^2`, because its two parts share no bit, and it stays below `2^(msb(x)+1)` |
| `Integer.SqrtTrialFits` | include/nil/crypto3/multiprecision/integer.hpp:245-247 | the root, the shifted root and the trial value all fit the type of `x` |
| `Integer.SqrtStep` | include/nil/crypto3/multiprecision/integer.hpp:248-251 | bit `g` joins the root exactly when the trial value fits in the remainder; either way the invariant holds for bit `g - 1` |
| `Integer.SqrtIteration` | include/nil/crypto3/multiprecision/integer.hpp:244-252 | one pass of the loop body, for bit `g >= 0`, keeps the invariant for `g - 1` |
| `Integer.SqrtPassBelowZero` | include/nil/crypto3/multiprecision/integer.hpp:244-253 | in the pass with `g == -1` the shift is by nothing and both `bit_set` calls leave their value unchanged |
| `Integer.SqrtFinal` | include/nil/crypto3/multiprecision/integer.hpp:253-254 | when the loop has tried bit 0, `s` and `r` are the integer root and remainder |
| `Integer.Sqrt` | include/nil/crypto3/multiprecision/integer.hpp:218-255 | as written: negative `x` is an error, `0` gives `(0, 0)`, `1` gives `(0, 1)`, `2` and `3` give `(1, x - 2)`, none of these three is a root, and every `x >= 4` gets its integer root and remainder |
| `Integer.SqrtCorrected` | include/nil/crypto3/multiprecision/integer.hpp:218-255 | with the loop tested first and no early return at `msb == 0`, every `x >= 0` gets its integer root and remainder |
| `Integer.SqrtRoot` | include/nil/crypto3/multiprecision/integer.hpp:261-264 | as written: `sqrt(x)` is `floor(sqrt(x))` for every `x >= 0` except `1`, where it is `0` |
| `Integer.SqrtRootCorrected` | include/nil/crypto3/multiprecision/integer.hpp:261-264 | over the corrected `sqrt(x, r)`, `floor(sqrt(x))` for every `x >= 0` |
| `Digits.Digits10To2` | include/nil/crypto3/multiprecision/detail/digits.hpp:13-15 | at least 1, exactly 1 for 0 digits, and without wrap-around one more than `ceil(1000*d/301)` |
| `Digits.Digits2To10` | include/nil/crypto3/multiprecision/detail/digits.hpp:17-19 | at most `d`, and without wrap-around `floor(301*d/1000)` |
| `Digits.Digits10To2OverCovers` | include/nil/crypto3/multiprecision/detail/digits.hpp:14 | `301 * digits10_2_2(d) > 1000 * d`: the binary count strictly over-covers the decimal request |
| `Digits.Digits10To2StrictlyIncreasing` | include/nil/crypto3/multiprecision/detail/digits.hpp:13-15 | more decimal digits ask for strictly more binary digits |
| `Digits.Digits2To10Monotone` | include/nil/crypto3/multiprecision/detail/digits.hpp:17-19 | more binary digits never carry fewer decimal digits |
| `Digits.DigitsRoundTrip` | include/nil/crypto3/multiprecision/detail/digits.hpp:13-19 | `digits2_2_10(digits10_2_2(d)) >= d`: converting to binary and back loses no decimal digit |
| `RestrictedConversion.IsLossyConversion` | include/nil/crypto3/multiprecision/traits/is_restricted_conversion.hpp:17-32 | lossy exactly when either category is unknown or a non-integer converts to integer; floating point to rational is not lossy; integer to any known category is not lossy |
| `RestrictedConversion.IsRestrictedConversion` | include/nil/crypto3/multiprecision/traits/is_restricted_conversion.hpp:34-41 | a lossy conversion is restricted; any other is restricted exactly when it is explicit but not implicit |

## Findings

| source | as written | input that shows it | evidently intended | confidence | as-written member | corrected member |
|---|---|---|---|---|---|---|
| include/nil/crypto3/multiprecision/integer.hpp:232-235 | when `msb(x) == 0`, that is `x == 1`, `sqrt(x, r)` returns `s = 0` with `r = 1` | `x = 1`: `0*0 + 1 == 1` but `r = 1 > 2*s = 0`, and the root of 1 is 1 | `s = 1`, `r = 0`, which the general path computes when the early return is removed | high, derived by proof, not executed | `Integer.Sqrt` | `Integer.SqrtCorrected` |
| include/nil/crypto3/multiprecision/integer.hpp:261-264 | `sqrt(x)` returns the `s` of `sqrt(x, r)`, so it inherits the early return above | `x = 1` gives `sqrt(1) == 0` | `floor(sqrt(x))`, that is `sqrt(1) == 1` | high, derived by proof, not executed | `Integer.SqrtRoot` | `Integer.SqrtRootCorrected` |
| include/nil/crypto3/multiprecision/integer.hpp:244-253 | the `do … while` runs its body once even when `g` starts at `-1`, which happens for `msb(x) == 1`. `bit_set` is then called with the negative indices `-2` and `-1`; converted to `unsigned` they are beyond every width, so they change nothing, but `r -= t` still subtracts 1 | `x = 2` gives `(1, 0)` and `x = 3` gives `(1, 1)`: `s*s + r` is 1 and 2, not `x` | a loop tested before each pass (`while (g >= 0)`), which leaves `(1, x - 1)`: `(1, 1)` and `(1, 2)` | high, derived by proof, not executed | `Integer.Sqrt` | `Integer.SqrtCorrected` |

## Left out

- The selection of `double_integer<I>`, a compile-time type lookup, is not modelled. Its purpose is a product of two `I1` values that never overflows. The model states the double-width type as `Unsigned(2w)` and proves, in `Powm`, that each product fits it.
- `detail::find_lsb` and `detail::find_msb` are not part of this model. `lsb` and `msb` are specified by the lowest and highest set bit, not by a bit scan.
- The limb-level `cpp_int` backend is not part of this model. `Multiply`, `Add`, `Subtract`, `DivideQr` and `IntegerModulus` also accept an unbounded type, which stands for an arbitrary-precision `Integer`. The bit operations, `Powm` and `Sqrt` are modelled on fixed-width builtin types only. Fixed-width `cpp_int` types that wrap their magnitude are not modelled.
- `BitTest`, `BitSet`, `BitUnset`, `BitFlip`: modelled on non-negative values below `2^W` only. Masks into the sign bit and the two's-complement behaviour on negative signed values are platform-level and left out.
- `BitSet`, `BitUnset`, `BitFlip`: `val` is updated through a reference in the source. The model returns the new value, and `Sqrt` assigns it back to the variable the source passes.
- `IntegerModulus`: stated for `x >= 0` and `val > 0`, the case `powm` uses. Negative operands meet C++'s usual arithmetic conversions between mixed signedness, which are not modelled.
- `Powm`: `a^b mod c` is stated only when `c <= 2^w`. For a larger modulus, the source assigns each residue back into the `w`-bit type of `a`, which drops its high bits; the model computes exactly that (`PowmLoop`) but the result is then not `a^b mod c`.
- `Powm`, `PowmSigned`: require `c > 0`. With `c == 0`, `result % c` and `x % c` are undefined behaviour, and the model does not give them a result. A negative signed `c` is well defined in C++, but it passes through the usual arithmetic conversions of `result % c`; that case is not modelled.
- `Powm`, `PowmSigned`: the type of `a` is taken to be unsigned. Signed bases and negative values of `a` are not modelled.
- `Multiply`, `Add`, `Subtract`: signed overflow, undefined in C++, is modelled as wrap-around modulo `2^width`.
- `DivideQr`: requires `y != 0`. Division by zero is undefined behaviour in C++ (or a signalled error for a multiprecision type), and the model does not give it a result.
- `DivideQr`: the quotient of the most negative value by `-1`, which overflows a signed type, is modelled as the exact quotient.
- `Sqrt`, `SqrtCorrected`: the integer type is a builtin type of at most 128 bits, so that the bit indices fit `unsigned`. A multiprecision `Integer` is not modelled here.
- `Digits10To2`, `Digits2To10`: `unsigned long` is taken as 64 bits wide. The exact-value contracts are stated when `1000*d` (or `301*d`) fits in it; the wrap-around itself is modelled.
- `IsRestrictedConversion`: `is_explicitly_convertible` and `std::is_convertible` are C++ type-system queries. They enter as boolean parameters.
- Exceptions (`std::domain_error`, `std::runtime_error`) are modelled as the `Err` case of `Result`, not as exception machinery.
- `traits/is_backend.hpp`, `cpp_int/value_pack.hpp`, `detail/rebind.hpp` and `traits/transcendental_reduction_type.hpp` are not part of this model. They are compile-time type scaffolding with no runtime logic.
- The tests and performance programs are not part of this model. They are I/O, timing, floating-point and foreign-backend harnesses.
