# AndromedaDSP in Dafny

A model of the DSP helper header `src/AndromedaDSP.hpp` of ModPlugPlayer/DSP.
It covers the window generators (Hanning, the MATLAB-style symmetric/periodic
Hanning, Hamming and Blackman), the complex magnitude, the magnitude/decibel
conversions (scalar and batch) and the stereo volume level, together with
proofs of the properties these functions promise.

The numeric template type `T` (float, double or long double) is modelled as
`real`. The platform's `cos`, `sqrt`, `log10` and `pow` are not computed. A
`Libm.MathLib` value carries them as uninterpreted functions, and every
operation takes that value as a parameter. A proof that needs an algebraic
law of a primitive names it as a precondition. There are three such laws:
`SqrtLaw` (sqrt is the non-negative square root), `PowSquareLaw`
(pow(x, 2) = x*x) and `PowLog10Law` (10^log10(x) = x). So every unconditional theorem here holds whatever values
the primitives return. `M_PI` is the constant `Libm.Pi`.

Files and modules:

- `Libm.dfy` (module `Libm`): the math library value, the laws, `Abs`, and two facts about squares.
- `Magnitude.dfy` (module `Magnitude`): `calculateMagnitude`, the scalar decibel helpers, and the batch `magnitudeToDecibel`.
- `Windows.dfy` (module `Windows`): the four window generators, each an imperative method over a fresh `array<real>`.
  Each is proved against a reference definition.
- `Volume.dfy` (module `Volume`): `calculateVolumeDbLevel`, with its accumulator loop.

How `hanningMultipliersMatlab` is modelled: the method zero-fills the array and computes the first `half` samples.
It then mirrors them with the decrementing index `idx`. In periodic mode it shifts right by one and clears position 0.
It is proved equal to `HanningMatlab`, which says directly what the window is.
In the n-point symmetric window, position i holds the sample of `min(i, n-1-i)`.
The periodic window of length N is `[0]` followed by the symmetric window of length N-1.
The three loops of the method are the helper methods `CalcHanning`, `MirrorFirstHalf` and `ShiftRightByOne`.
The mirror loop's index is `n-1-i` in both parities. The even start `half-1` and the odd start `half-2` are both this value.

## Model

| member | source | states |
|---|---|---|
| Magnitude.OrderByValue | src/AndromedaDSP.hpp:72-80 | small and big are the two operands in one of the two orders, compared by value: small <= big |
| Magnitude.CalculateMagnitude | src/AndromedaDSP.hpp:69-87 | exact zero branches: a zero real part gives the absolute value of the imaginary part, and a zero imaginary part gives the absolute value of the real part, whichever operand is big |
| Magnitude.ScaledNorm | src/AndromedaDSP.hpp:81-86 | once small and big are chosen, big == 0 gives abs(small) and small == 0 gives abs(big); with a true sqrt, every branch (the scaled formula included) yields a non-negative value whose square is small^2 + big^2, so rescaling by big does not change the norm |
| Magnitude.MagnitudeSymmetric | src/AndromedaDSP.hpp:69-87 | calculateMagnitude(a, b) == calculateMagnitude(b, a) for all a, b |
| Magnitude.ScaledFormulaSquare | src/AndromedaDSP.hpp:85-86 | for big != 0 and a true sqrt, abs(big) * sqrt(1 + (small/big)^2) is non-negative and its square is small^2 + big^2 |
| Magnitude.ScaledNormIsNorm | src/AndromedaDSP.hpp:81-86 | with a true sqrt, every branch gives a non-negative value whose square is small^2 + big^2, namely sqrt(small^2 + big^2) |
| Magnitude.MagnitudeIsNorm | src/AndromedaDSP.hpp:69-86 | with a true sqrt, the result is >= 0, squares to real^2 + imag^2, and equals the direct formula sqrt(real*real + imaginary*imaginary) that the comment at line 70 replaces |
| Magnitude.MagnitudeRatio | src/AndromedaDSP.hpp:85 | the ratio a that is squared satisfies a * big == small |
| Magnitude.RatioUnboundedAsWritten | src/AndromedaDSP.hpp:73-85 | as written, real = -100 and imaginary = 1 give a = -100, so abs(a) > 1 |
| Magnitude.OrderByAbs | src/AndromedaDSP.hpp:72-80 | corrected ordering: the operands in one of the two orders with abs(small) <= abs(big) |
| Magnitude.CalculateMagnitudeByAbs | src/AndromedaDSP.hpp:69-87 | corrected magnitude keeps the exact zero branches |
| Magnitude.RatioBoundedByAbs | src/AndromedaDSP.hpp:85-86 | with the corrected ordering and both operands nonzero, abs(a) <= 1 and a*a <= 1 |
| Magnitude.MagnitudeByAbsIsNorm | src/AndromedaDSP.hpp:69-87 | with a true sqrt, the corrected magnitude is sqrt(real^2 + imag^2) and agrees with the source's on every real input |
| Magnitude.DecibelRoundTrip | src/AndromedaDSP.hpp:41-47 | under the law 10^log10(x) == x, decibelToMagnitude(magnitudeToDecibel(m)) == m for every m > 0 |
| Magnitude.CalculateDecibelOfNorm | src/AndromedaDSP.hpp:65-67 | calculateDecibel is magnitudeToDecibel of calculateMagnitude, is symmetric in its operands, and with a true sqrt is the decibel value of sqrt(real^2 + imag^2) |
| Magnitude.LinearToDecibelOfRatio | src/AndromedaDSP.hpp:214-216 | linearToDecibel(v1, v2) is magnitudeToDecibel(v1 / v2); equal arguments give the level of magnitude 1 |
| Magnitude.LinearDecibelRoundTrip | src/AndromedaDSP.hpp:204-216 | linearToDecibel and decibelToMagnitude are the inverse pair the comment before linearToDecibel describes: under the law 10^log10(x) == x, decibelToMagnitude(linearToDecibel(v1, v2)) == v1 / v2 for every positive ratio |
| Magnitude.MagnitudesToDecibels | src/AndromedaDSP.hpp:184-189 | decibelValues[i] == magnitudeToDecibel(old magnitudeValues[i]) for i < count; every later cell unchanged; magnitudeValues unchanged when it is a different array (one array used for both also gives the elementwise result) |
| Windows.HanningMultipliers | src/AndromedaDSP.hpp:89-98 | a fresh array of exactly dataSize cells; cell i is 0.5 * (1 - cos(2*pi*i/(dataSize-1))), depending on i and dataSize only |
| Windows.HammingMultipliers | src/AndromedaDSP.hpp:101-108 | a fresh array of exactly windowLength cells; cell i is 0.53836 - 0.46164 * cos(2*pi*i/(windowLength-1)) |
| Windows.BlackmanMultipliers | src/AndromedaDSP.hpp:110-116 | a fresh array of exactly windowLength cells; cell i is 0.42 - 0.5 * cos(2*pi*i/(L-1)) + 0.08 * cos(4*pi*i/(L-1)) |
| Windows.PlainWindowEndpoints | src/AndromedaDSP.hpp:89-116 | where cos(0) = cos(2*pi) = cos(4*pi) = 1, the first and last Hanning and Blackman coefficients are 0 and the Hamming ones are 0.07672 |
| Windows.PlainWindowRange | src/AndromedaDSP.hpp:89-108 | where cos lies in [-1, 1], a Hanning coefficient lies in [0, 1] and a Hamming coefficient in [0.07672, 1] |
| Windows.Half | src/AndromedaDSP.hpp:150-164 | the number of computed samples is n/2 or (n+1)/2: twice it is n or n+1 |
| Windows.HanningMatlab | src/AndromedaDSP.hpp:142-180 | the reference window has exactly N cells |
| Windows.HanningMultipliersMatlab | src/AndromedaDSP.hpp:138-182 | a fresh array equal to HanningMatlab(N, itype): symmetric window, or 0 followed by the (N-1)-point symmetric window when itype == 1 |
| Windows.CalcHanning | src/AndromedaDSP.hpp:153-154 | cells below half hold the CALC_HANNING samples 0.5 * (1 - cos(2*pi*(i+1)/(n+1))); all other cells unchanged |
| Windows.MirrorFirstHalf | src/AndromedaDSP.hpp:156-160 | with idx starting at n-1-half, cell i in [half, n) receives the old cell n-1-i; cells below half and from n on unchanged |
| Windows.ShiftRightByOne | src/AndromedaDSP.hpp:177-178 | cell i >= 1 receives the old cell i-1; cell 0 unchanged |
| Windows.SymmetricHalves | src/AndromedaDSP.hpp:150-172 | below Half(n) the symmetric window holds the computed sample i; from Half(n) on it holds sample n-1-i |
| Windows.SymmetricMirror | src/AndromedaDSP.hpp:150-173 | the n-point symmetric window satisfies w[i] == w[n-1-i] for every i < n |
| Windows.SymmetricModeMirror | src/AndromedaDSP.hpp:145-173 | with itype != 1, the N-point window satisfies w[i] == w[N-1-i], for even and odd N |
| Windows.SymmetricModeFirstHalf | src/AndromedaDSP.hpp:150-172 | with itype != 1, w[i] is the computed sample i for i < Half(N); every i >= Half(N) holds sample N-1-i, a copy of the earlier cell w[N-1-i] |
| Windows.PeriodicModeShifted | src/AndromedaDSP.hpp:145-180 | with itype == 1 and N >= 1, w[0] == 0, w[i] is cell i-1 of the (N-1)-point symmetric window, and w[i] == w[N-i] for 1 <= i < N |
| Windows.OnlyItypeOneIsPeriodic | src/AndromedaDSP.hpp:145-148 | every itype other than 1 gives exactly the itype == 0 window, the N-point symmetric one |
| Volume.CalculateVolumeDbLevel | src/AndromedaDSP.hpp:191-202 | after the loop, sum is the sum over i < count of pow((left[i] + right[i]) / 2, 2), and the result is 20 * log10(sqrt(sum / count)) |
| Volume.SumOfSquaresSwap | src/AndromedaDSP.hpp:195-197 | the sum is unchanged when the left and right buffers are swapped |
| Volume.MeanSquareSign | src/AndromedaDSP.hpp:196 | where pow(x, 2) = x*x, one sample's term is >= 0 and is 0 exactly when left + right == 0 |
| Volume.SumOfSquaresZero | src/AndromedaDSP.hpp:195-197 | where pow(x, 2) = x*x, the sum is >= 0, and it is 0 if and only if left[i] + right[i] == 0 at every position |
| Volume.SilenceSumIsZero | src/AndromedaDSP.hpp:191-199 | two silent buffers give sum 0; with a true sqrt the level calculateVolumeDbLevel returns is then magnitudeToDecibel(0), the level of magnitude 0 |

## Left out

- Floating-point behaviour: rounding, NaN, infinities and overflow are not modelled. This includes the overflow that `calculateMagnitude` is written to avoid. `real` cannot overflow.
- The values of `cos`, `sqrt`, `log10`/`log10f`/`log10l` and `pow` are left uninterpreted. The three laws and the cos values used by the endpoint and range lemmas are preconditions of those lemmas, not axioms.
- The per-width specialisations of `logarithm` (`src/AndromedaDSP.hpp:49-63`) collapse to one `Magnitude.Logarithm` over `real`.
- Ownership and deallocation of the `new[]` buffers are not modelled. Results are fresh Dafny arrays.
- Which `abs` overload an unqualified `abs(small)` picks for a floating `T` depends on the C++ standard library in use. The model uses the real absolute value.
- Windows.HanningMultipliers requires dataSize != 1, because there the source computes 0/0 and fills the cell with NaN. dataSize == 0 is allowed and gives an empty array.
- Windows.HammingMultipliers requires windowLength != 1 and a non-negative length. Length 1 divides 0 by 0. A negative `int` length makes `new[]` fail.
- Windows.BlackmanMultipliers has the same two restrictions as HammingMultipliers, for the same reasons.
- Windows.HanningMultipliersMatlab requires N >= 1 when itype == 1, because for N == 0 the source writes `w[0]` of an empty array. It takes N as a non-negative number, because a negative N makes `new[]` fail. `itype` is a `short` in the source and an unbounded integer here; it is only ever compared with 1. Its default of 0 (symmetric mode) is kept as the parameter's default value.
- Volume.CalculateVolumeDbLevel requires count > 0, because for count == 0 the source divides 0 by 0.
- Magnitude.LinearToDecibel requires v2 != 0, because for v2 == 0 the source's quotient is infinite or NaN.
- Magnitude.MagnitudesToDecibels takes Dafny arrays. So it covers two distinct buffers or one buffer used for both, but not C++ pointers that overlap at an offset.
- Symmetry of the plain Hanning, Hamming and Blackman windows (w[i] == w[N-1-i]) is not stated. It rests on cos(2*pi - x) == cos(x), a law of cos rather than of the code.
- The `size_t`/`int` conversions are not modelled. Lengths and counts are non-negative integers, and the wrap-around of `dataSize - 1` at 0 never arises because the loop does not run. Two width effects are therefore absent from the model: in hanningMultipliers (src/AndromedaDSP.hpp:93) the `unsigned int` counter compared with a `size_t` size wraps before reaching a size above UINT_MAX, so that loop never ends there, while the model's loop always does; and in hanningMultipliersMatlab (src/AndromedaDSP.hpp:164) `(n+1)/2` overflows `int` at N == INT_MAX, whereas the model computes it on unbounded integers.

## Findings

| source | as written | input that shows it | evidently intended | confidence | as-written member | corrected member |
|---|---|---|---|---|---|---|
| src/AndromedaDSP.hpp:73-86 | small and big are chosen by `real < imaginary`, comparing values rather than magnitudes. With a negative operand, abs(small/big) can exceed 1, and then squaring the ratio can overflow. | real = -100, imaginary = 1 gives a = -100. With real = -1e200 and imaginary = 1, a*a overflows and the result is infinite, although the norm is 1e200. | order the operands by absolute value, so that abs(a) <= 1 and 1 + a*a stays small, as the comment at lines 70-71 intends | medium, not executed | Magnitude.RatioUnboundedAsWritten | Magnitude.RatioBoundedByAbs |

Over real numbers with a true square root, both orderings compute the same value (`Magnitude.MagnitudeByAbsIsNorm`). The difference appears only in floating point. So `CalculateDecibel` keeps the source's `CalculateMagnitude`, and `CalculateMagnitudeByAbs` is the corrected definition that the ratio bound is proved about.
