# Hedge test utilities in Dafny

This project models the helper library `test/utils.js` of the Hedge option
protocol, the code its Hardhat tests and deployment scripts share:

- **Fixed-point converters.** `toDecimal(bi, decimals)` writes a BigInt
  scaled by 10^decimals as the text `"<whole>.<fraction>"`, peeling off one
  base-10 digit per loop pass. `toBigInt(val, decimals)` turns a human value
  into such a BigInt: it accepts at most six fractional digits (`val * 1000000`
must be an integer) and
  then multiplies by ten once per remaining digit. A falsy `decimals` becomes
  18 in both.
- **Normal distribution table.** `tableSnd(x)` approximates the standard
  normal distribution function. It reads a constant table of 490 values at
  steps of 0.01 and interpolates linearly between neighbouring entries. From
  index 447 on it returns 1, and for x < 0 it mirrors the result as 1 - v.
- **Option values.** `d1`, `Vc` and `Vp` price a European call and put
  with `tableSnd` as the distribution function.

The Dafny modules follow that structure:

| module | file | models |
|---|---|---|
| `DecimalText` | decimal_text.dfy | BigInt semantics the converters rely on: `toString()` in base 10, and `/` and `%`, which truncate toward zero. It also holds `ParseFixed`, a reference reader for `"<digits>.<digits>"` that the round trips are stated against. |
| `FixedPoint` | fixed_point.dfy | `toDecimal` as the method `ToDecimal`, and the integer stage of `toBigInt` as the method `ToBigIntScale`. Both are loops proved against the specification functions `DecimalString` and `ScaleMicros`. |
| `NormalTable` | normal_table.dfy | The table, one constant per source line, and `tableSnd` as pure functions over `real`. |
| `RealFacts` | real_facts.dfy | Two sign facts about products of reals that the interpolation and pricing proofs share. |
| `OptionPricer` | option_pricer.dfy | `d1` (`D1`), `Vc` (`Call`) and `Vp` (`Put`) over `real`. `Math.log` and `Math.sqrt` are passed in as the functions `ln` and `sqrt`. |

Integers are unbounded, as BigInts are. Every `decimals` value is an `int`,
and 0 stands for every falsy value (missing, `null`, `0`). `toDecimal` is
modelled for every BigInt, including negative ones. For bi < 0 the text
contains '-', so it falls outside the unsigned reader `ParseFixed`. It is a
correct signed decimal exactly when bi is a multiple of 10^n, where n is the
number of fractional digits: `toDecimal(-10n, 1)` is `"-1.0"`. Otherwise a
truncating BigInt `%` leaves a negative chunk after the point
(`toDecimal(-15n, 1)` is `"-1.-5"`, `toDecimal(-5n, 1)` is `"0.-5"`).

The interpolation lemmas are proved for any table with the source table's
shape (predicate `TableShape`): 490 entries starting at 0.5, never
decreasing, and equal to 1 exactly from index 442 on. `TableHasShape` proves
that the constant table in the source has that shape. In the same way, the
pricing lemmas hold for any distribution function with values in [0, 1],
`snd(x) + snd(-x) = 1` and no decrease (`Distribution`).
`TableSndIsDistribution` proves that `tableSnd` is one. `Call` and `Put` are
`CallWith` and `PutWith` with `snd` fixed to `TableSnd`, exactly as the
source binds `const snd = exports.tableSnd`.

The table has 490 entries (lines 62-110, 49 lines of 10), and the guard
`i < 447` reads at most `table[447]`. `TableLandmarks` states 490 entries,
and `Interpolate` reads only indices up to 447, which Dafny checks to be in
bounds.

## Model

| member | source | states |
|---|---|---|
| DecimalText.IntToString | test/utils.js:28 | BigInt `toString()`: the text is never empty, contains '-' exactly when the value is negative, and for a non-negative value is plain digits that read back as the value. |
| DecimalText.NatToStringValue | test/utils.js:34 | The digits `toString()` writes for a non-negative BigInt read back as that BigInt. |
| DecimalText.TruncDiv | test/utils.js:30 | BigInt `bi /= 10`: the quotient rounds toward zero and has the sign of the dividend. For a >= 0, 0 <= b*q <= a < b*q + b; for a < 0, b*q - b < a <= b*q <= 0. |
| DecimalText.TruncMod | test/utils.js:28 | BigInt `bi % 10`: a == b * TruncDiv(a, b) + r, and r has the dividend's sign: 0 <= r < b for a >= 0, -b < r <= 0 for a < 0. |
| DecimalText.ParseFixedOf | test/utils.js:34 | The reader: digits, '.', digits read back as whole * 10^|frac| + frac, with |frac| fractional digits. |
| DecimalText.ParsedHasNoSign | test/utils.js:34 | Text that reads back contains no '-'. |
| FixedPoint.ToDecimal | test/utils.js:21-36 | The loop returns DecimalString(bi, decimals). For bi >= 0 the text reads back as exactly bi with FractionDigits(decimals) fractional digits. For bi < 0 the text contains '-', so the unsigned reader ParseFixed rejects it. |
| FixedPoint.PassStep | test/utils.js:28-32 | One loop pass: the state after k passes equals the state after k - 1 passes from bi / 10, with the chunk `(bi % 10).toString()` put in front of r. |
| FixedPoint.PeelIsQuotient | test/utils.js:30 | On bi >= 0, k passes of `bi /= BASE` leave bi / 10^k, which is never negative. |
| FixedPoint.ChunksAreDigits | test/utils.js:27-33 | On bi >= 0, k passes build exactly k characters, all digits, spelling bi % 10^k zero-padded, most significant first. There is no rounding and no trimming. |
| FixedPoint.RenderReadsBack | test/utils.js:34 | On bi >= 0, `bi.toString() + '.' + r` after k passes reads back as (bi, k): whole * 10^k + fraction == bi. |
| FixedPoint.DecimalStringReadsBack | test/utils.js:21-36 | toDecimal(bi, d) reads back as bi with FractionDigits(d) digits when bi >= 0. When bi < 0 the text contains '-' and the unsigned reader rejects it. |
| FixedPoint.NegativeShowsSign | test/utils.js:28 | For bi < 0, the text after any number of passes contains a '-'. |
| FixedPoint.DecimalStringShape | test/utils.js:22-34 | `decimals || 18`: positive decimals give that many fractional digits, and 0 gives 18. For bi >= 0 the text is bi / 10^n in decimal, then '.', then n digits whose value is bi % 10^n. |
| FixedPoint.NegativeInputText | test/utils.js:27-34 | toDecimal(-15n, 1) is "-1.-5" and toDecimal(-5n, 1) is "0.-5": truncating BigInt `%` writes signed chunks. |
| FixedPoint.NegativeDecimalString | test/utils.js:27-34 | For bi < 0 with n fractional digits: when 10^n divides bi, every chunk is "0" and the text is '-' before the text of -bi, a correct signed decimal. Otherwise a negative chunk puts a '-' after the point. |
| FixedPoint.NegativeMultipleExample | test/utils.js:27-34 | toDecimal(-10n, 1) is the signed decimal "-1.0". |
| FixedPoint.RenderOnePass | test/utils.js:27-34 | With one pass the text is `(bi / 10).toString() + '.' + (bi % 10).toString()`. |
| FixedPoint.ToBigIntScale | test/utils.js:3-14 | Starting from m = val * 1000000 as a BigInt, the loop returns ScaleMicros(m, decimals). That is m * 10^(d - 6) when the effective decimals d exceed 6, and m unchanged otherwise. |
| FixedPoint.EffectiveDecimals | test/utils.js:3 | The falsy fallback to 18 of toBigInt: the result is never 0; a non-zero (truthy) `decimals` is kept, and 0 (every falsy value) becomes 18. The same line opens toDecimal (line 22). |
| FixedPoint.ShiftedPeel | test/utils.js:28-31 | Multiplying bi by 10^j and running j more passes leaves the same final bi, the whole part. |
| FixedPoint.ShiftedChunks | test/utils.js:27-33 | Multiplying bi by 10^j and running j more passes builds the same fraction followed by exactly j zeros. |
| FixedPoint.ComposeWithToDecimal | test/utils.js:5-14 | For effective decimals d >= 6, toDecimal(toBigInt(v, d), d) equals toDecimal(m, 6) followed by d - 6 zeros, where m = v * 1000000. With DecimalStringShape, for m >= 0 the whole part is m / 10^6 and the six digits are m % 10^6, so no more than six fractional digits ever survive. |
| FixedPoint.AsWrittenWholeUnits | test/utils.js:6-12 | For effective decimals below 6 the result is m itself, so toDecimal shows m / 10^d whole units rather than m / 10^6. |
| FixedPoint.ScaleDownMissing | test/utils.js:6-12 | toBigInt(1, 1) is 1000000n, which toDecimal writes as "100000.0". The corrected scaling gives 10n, written "1.0". |
| FixedPoint.IntendedAgreesFromSix | test/utils.js:9-12 | Wherever the source scales up (d >= 6), the corrected scaling gives the same result. |
| FixedPoint.IntendedWholeUnits | test/utils.js:6-12 | With the corrected scaling the result is never negative for m >= 0, and toDecimal shows m / 10^6 whole units for every `decimals`. |
| NormalTable.Table | test/utils.js:60-111 | The table literal, as 490 entries; its contents are stated by TableLandmarks, TableStep, TableBounds and TableSaturated. |
| NormalTable.Row | test/utils.js:62-110 | Each source line of the table holds ten entries. |
| NormalTable.TableLandmarks | test/utils.js:60-111 | The table has 490 entries. table[0] = 0.5, table[441] = 0.99999, and table[442] = table[489] = 1. |
| NormalTable.TableStep | test/utils.js:62-110 | Neighbouring entries never decrease, within a line and across line breaks. |
| NormalTable.TableMonotone | test/utils.js:62-110 | The table is non-decreasing: a <= b implies table[a] <= table[b]. |
| NormalTable.TableBounds | test/utils.js:62-110 | Every entry lies in [0.5, 1]. |
| NormalTable.TableSaturated | test/utils.js:106-110 | An entry equals 1 if and only if its index is at least 442. |
| NormalTable.TableHasShape | test/utils.js:60-111 | The source's table satisfies TableShape. |
| NormalTable.SegmentIndex | test/utils.js:114 | `i = parseInt(ux / 0.01)` for ux >= 0 is the floor: i <= ux / 0.01 < i + 1. |
| NormalTable.Segment | test/utils.js:120 | `v0 + (v1 - v0) * (ux - i * 0.01) / 0.01`, a plain transcription with no ensures of its own; SegmentBetween, SegmentsMeet and InterpolateAtKnot state its properties. |
| NormalTable.SegmentBetween | test/utils.js:117-121 | On its own segment, the interpolated value lies between table[i] and table[i + 1]. |
| NormalTable.Interpolate | test/utils.js:113-121 | `v0` for |x| lies in [0.5, 1]. The table is read only at i and i + 1 for i < 447, inside its 490 entries. |
| NormalTable.Lookup | test/utils.js:113-127 | The function body over a table of that shape: the result lies in [0, 1], is at least 0.5 for x >= 0, and is at most 0.5 for x < 0. |
| NormalTable.TableSnd | test/utils.js:59-128 | tableSnd(x) lies in [0, 1], is at least 0.5 for x >= 0, and is at most 0.5 for x < 0. |
| NormalTable.InterpolateAtKnot | test/utils.js:114-121 | At ux = k * 0.01 the lookup returns table[k] exactly, for every k < 490. |
| NormalTable.SegmentsMeet | test/utils.js:116-121 | Continuity: segment k - 1 ends at the value taken at knot k, including at the cut-off k = 447. |
| NormalTable.InterpolateSaturates | test/utils.js:116-121 | The lookup equals 1 if and only if ux >= 4.42. |
| NormalTable.InterpolateMonotone | test/utils.js:116-121 | The lookup is non-decreasing in ux. |
| NormalTable.LookupAtZero | test/utils.js:113-127 | The function body returns 0.5 at x = 0. |
| NormalTable.LookupSymmetric | test/utils.js:123-125 | The mirror makes the body symmetric: value(-x) = 1 - value(x) for every x. |
| NormalTable.LookupSaturates | test/utils.js:113-127 | The body returns 1 if and only if x >= 4.42, and 0 if and only if x <= -4.42. |
| NormalTable.LookupMonotone | test/utils.js:113-127 | The body is non-decreasing in x. |
| NormalTable.TableSndAtZero | test/utils.js:59-128 | tableSnd(0) = 0.5. |
| NormalTable.TableSndSymmetric | test/utils.js:123-125 | tableSnd(-x) = 1 - tableSnd(x) for every x. |
| NormalTable.TableSndSaturates | test/utils.js:116-125 | tableSnd(x) = 1 if and only if x >= 4.42; tableSnd(x) = 0 if and only if x <= -4.42. |
| NormalTable.TableSndMonotone | test/utils.js:59-128 | tableSnd is non-decreasing, as a distribution function must be. |
| NormalTable.TableSndAtKnot | test/utils.js:114-125 | tableSnd(k * 0.01) = table[k] and tableSnd(-k * 0.01) = 1 - table[k], for every k < 490. |
| NormalTable.TableSndSegmentsMeet | test/utils.js:116-121 | The interpolation segments of tableSnd join at every knot up to the cut-off at 447, so there is no jump. |
| OptionPricer.D1 | test/utils.js:130-132 | `d1`, a plain transcription with no ensures of its own; D1AtTheMoney states its value at K = S0. |
| OptionPricer.CallWith | test/utils.js:136-142 | `Vc` over any distribution function, a plain transcription with no ensures of its own; PutCallParity, ValueBounds, ValuesNonNegative and CallInTextbookForm state its properties. |
| OptionPricer.Call | test/utils.js:134-142 | `Vc` with `snd = tableSnd`, no ensures of its own; TablePricing states its parity and bounds. |
| OptionPricer.PutWith | test/utils.js:144-149 | `Vp` over any distribution function, a plain transcription with no ensures of its own; PutCallParity, ValueBounds and ValuesNonNegative state its properties. |
| OptionPricer.Put | test/utils.js:144-149 | `Vp` with `snd = tableSnd`, no ensures of its own; TablePricing states its parity and bounds. |
| OptionPricer.TableSndIsDistribution | test/utils.js:134 | The function bound to `snd` takes values in [0, 1], satisfies snd(x) + snd(-x) = 1, and never decreases. |
| OptionPricer.PutCallParity | test/utils.js:136-149 | Vc - Vp = S0 (1 + miu T) - K, whatever `snd` returns. |
| OptionPricer.ValueBounds | test/utils.js:136-149 | With forward F = S0 (1 + miu T) >= 0 and K >= 0, Vc lies in [-K, F] and Vp lies in [-F, K]. |
| OptionPricer.CallInTextbookForm | test/utils.js:136-142 | By symmetry, Vc = F snd(-(d1/sqrt T - sigma sqrt T)) - K snd(-d1/sqrt T): the shape of the undiscounted Black-Scholes call F N(d1) - K N(d2), with the source's linear forward F = S0 (1 + miu T). |
| OptionPricer.ValuesNonNegative | test/utils.js:136-149 | With sigma > 0 and sqrt(T) > 0: the call is worth at least 0 when F >= K, and the put is worth at least 0 when K >= F. |
| OptionPricer.TablePricing | test/utils.js:134-149 | With `snd = tableSnd`, as the source binds it: the put-call parity and both value bounds. |
| OptionPricer.D1AtTheMoney | test/utils.js:130-132 | With K = S0 and ln(1) = 0, d1 = (sigma / 2 - miu / sigma) T. |

## Left out

- `showReceipt` (test/utils.js:17-19): it awaits a transaction receipt and logs the gas used. This is asynchronous I/O with no logic of its own.
- `snd` (test/utils.js:39-57): a floating-point rectangle-rule integration with `Math.exp` and a float loop counter. It is numerics with nothing exact to state.
- The floating-point front end of `toBigInt` (test/utils.js:4-7): `parseFloat`, `val * 1000000` in doubles, and `BigInt(val.toString())`. The last one throws when the product is not an integer or prints in exponent form. The model starts from the integer m that this stage produces.
- The coercions at the top of `toDecimal` (test/utils.js:23-24): the model receives `bi` and `decimals` as integers. A non-integer `decimals`, which makes `BigInt(...)` throw, is not modelled.
- IEEE double arithmetic in `tableSnd`, `d1`, `Vc` and `Vp`: the model computes over exact reals.
- `parseInt` on a number (test/utils.js:114): it stringifies first, so a quotient below 1e-6 or at or above 1e21 is written in exponent form and parses to a small integer. The model uses the floor of |x| / 0.01 instead.
- `parseFloat(S0)` and `parseFloat(K)` in `Vc`/`Vp` (test/utils.js:137-138, 145-146): prices are reals in the model.
- `Math.log` and `Math.sqrt`: these are parameters `ln` and `sqrt`, and no property of them is assumed. Where a lemma needs one, it is a hypothesis (ln(1) = 0 in `D1AtTheMoney`).
- Division by zero in `d1`, `Vc` and `Vp`: in JavaScript it yields Infinity or NaN. Over reals it has no value, so `D1`, `Upper`, `Lower`, `CallWith`, `PutWith`, `Call` and `Put` require S0, sigma and sqrt(T) to be non-zero.
- The deployment scripts under scripts/ and test/sample-test.js: contract factories, fixed addresses and console output against a chain, with no logic of their own.

## Findings

| source | as written | input that shows it | evidently intended | confidence | as-written member | corrected member |
|---|---|---|---|---|---|---|
| test/utils.js:6-12 | `decimals -= 6` and the loop that only multiplies: with fewer than 6 decimals (or negative ones) nothing is divided, so the result keeps the factor 10^6 | `toBigInt(1, 1)` gives 1000000n, which `toDecimal(_, 1)` writes as "100000.0" | scale the m millionths to `decimals` digits: m * 10^(d - 6) for d >= 6, and m / 10^(6 - d) (BigInt division) below | not executed | FixedPoint.ScaleDownMissing | FixedPoint.IntendedWholeUnits |

The corrected scaling is `FixedPoint.ScaleMicrosIntended`. For every
`decimals`, toDecimal of its result shows m / 10^6 whole units
(`IntendedWholeUnits`). Where the source scales up it agrees with the source
(`IntendedAgreesFromSix`), so the composition law `ComposeWithToDecimal`
holds for both.
