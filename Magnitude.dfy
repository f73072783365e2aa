/** Complex magnitude and the magnitude/decibel conversions of AndromedaDSP.
    Each scalar conversion is a single expression over the math library;
    the batch conversion writes a caller-supplied array in a loop. */
module Magnitude {
  import opened Libm

  /** The operands of calculateMagnitude in the order the source picks them:
      by value (not by absolute value), the strictly smaller first. */
  function OrderByValue(re: real, im: real): (p: (real, real))
    ensures p.0 <= p.1
    ensures (p.0 == re && p.1 == im) || (p.0 == im && p.1 == re)
  {
    if re < im then (re, im) else (im, re)
  }

  /** calculateMagnitude: the norm of re + i*im, computed as |big| * sqrt(1 + (small/big)^2)
      with exact answers when one operand is zero. */
  function CalculateMagnitude(m: MathLib, re: real, im: real): (r: real)
    ensures re == 0.0 ==> r == Abs(im)
    ensures im == 0.0 ==> r == Abs(re)
  {
    var p := OrderByValue(re, im);
    ScaledNorm(m, p.0, p.1)
  }

  /** The branches of calculateMagnitude once small and big are chosen:
      exact when either is zero, |big| * sqrt(1 + (small/big)^2) otherwise.
      With a true square root every branch is a non-negative number whose square
      is small^2 + big^2, so the scaling does not change the value computed. */
  function ScaledNorm(m: MathLib, small: real, big: real): (r: real)
    ensures big == 0.0 ==> r == Abs(small)
    ensures small == 0.0 ==> r == Abs(big)
    ensures SqrtLaw(m) ==> 0.0 <= r && r * r == small * small + big * big
  {
    if big == 0.0 then
      AbsSquare(small);
      Abs(small)
    else if small == 0.0 then
      AbsSquare(big);
      Abs(big)
    else
      var a := small / big;
      var n := Abs(big) * m.sqrt(1.0 + a * a);
      ScaledFormulaSquare(m, small, big);
      n
  }

  /** Swapping the real and imaginary part does not change the magnitude:
      when the operands differ both orders pick the same small and big,
      and when they are equal the choice does not matter. */
  lemma MagnitudeSymmetric(m: MathLib, a: real, b: real)
    ensures CalculateMagnitude(m, a, b) == CalculateMagnitude(m, b, a)
  {
  }

  /** The nonzero branch: the square of |big| * sqrt(1 + (small/big)^2) is small^2 + big^2. */
  lemma ScaledFormulaSquare(m: MathLib, small: real, big: real)
    requires big != 0.0
    ensures SqrtLaw(m) ==>
      var a := small / big;
      var r := Abs(big) * m.sqrt(1.0 + a * a);
      0.0 <= r && r * r == small * small + big * big
  {
    if !SqrtLaw(m) {
      return;
    }
    var a := small / big;
    var s := m.sqrt(1.0 + a * a);
    SquarePositive(a);
    AbsSquare(big);
    assert 0.0 <= s && s * s == 1.0 + a * a;
    assert a * big == small;
    calc {
      (Abs(big) * s) * (Abs(big) * s);
    ==
      (Abs(big) * Abs(big)) * (s * s);
    ==
      (big * big) * (1.0 + a * a);
    ==
      big * big + (a * big) * (a * big);
    ==
      small * small + big * big;
    }
  }

  /** With a true square root, every branch of ScaledNorm is the non-negative
      root of small^2 + big^2. */
  lemma ScaledNormIsNorm(m: MathLib, small: real, big: real)
    requires SqrtLaw(m)
    ensures 0.0 <= ScaledNorm(m, small, big)
    ensures ScaledNorm(m, small, big) * ScaledNorm(m, small, big) == small * small + big * big
    ensures ScaledNorm(m, small, big) == m.sqrt(small * small + big * big)
  {
    var r := ScaledNorm(m, small, big);
    var q := m.sqrt(small * small + big * big);
    assert 0.0 <= small * small + big * big;
    assert 0.0 <= q && q * q == small * small + big * big;
    NonNegativeSquareUnique(r, q);
  }

  /** With a true square root, the magnitude is non-negative, squares to re^2 + im^2,
      and equals what the direct formula sqrt(re*re + im*im) computes. */
  lemma MagnitudeIsNorm(m: MathLib, re: real, im: real)
    requires SqrtLaw(m)
    ensures 0.0 <= CalculateMagnitude(m, re, im)
    ensures CalculateMagnitude(m, re, im) * CalculateMagnitude(m, re, im) == re * re + im * im
    ensures CalculateMagnitude(m, re, im) == m.sqrt(re * re + im * im)
  {
    var p := OrderByValue(re, im);
    ScaledNormIsNorm(m, p.0, p.1);
    if re < im {
      assert p == (re, im);
    } else {
      assert p == (im, re);
      assert p.0 * p.0 + p.1 * p.1 == re * re + im * im;
    }
  }

  // ---- Finding: ordering by value lets the ratio small/big grow beyond 1 ----

  /** The ratio `a` that calculateMagnitude squares, as the source computes it. */
  function MagnitudeRatio(re: real, im: real): (a: real)
    requires re != 0.0 && im != 0.0
    ensures a * OrderByValue(re, im).1 == OrderByValue(re, im).0
  {
    var p := OrderByValue(re, im);
    p.0 / p.1
  }

  /** As written, -100 + 1i gives small = -100 and big = 1, a ratio of -100,
      so a*a is 10000 times larger than the squared result it was meant to keep small. */
  lemma RatioUnboundedAsWritten()
    ensures MagnitudeRatio(-100.0, 1.0) == -100.0
    ensures Abs(MagnitudeRatio(-100.0, 1.0)) > 1.0
  {
  }

  /** The operands ordered by absolute value, as the overflow-avoidance technique needs. */
  function OrderByAbs(re: real, im: real): (p: (real, real))
    ensures Abs(p.0) <= Abs(p.1)
    ensures (p.0 == re && p.1 == im) || (p.0 == im && p.1 == re)
  {
    if Abs(re) < Abs(im) then (re, im) else (im, re)
  }

  /** calculateMagnitude with the operands ordered by absolute value. */
  function CalculateMagnitudeByAbs(m: MathLib, re: real, im: real): (r: real)
    ensures re == 0.0 ==> r == Abs(im)
    ensures im == 0.0 ==> r == Abs(re)
  {
    var p := OrderByAbs(re, im);
    ScaledNorm(m, p.0, p.1)
  }

  /** Ordered by absolute value, the ratio and its square never exceed 1. */
  lemma {:induction false} RatioBoundedByAbs(re: real, im: real)
    requires re != 0.0 && im != 0.0
    ensures var p := OrderByAbs(re, im);
      var a := p.0 / p.1;
      Abs(a) <= 1.0 && a * a <= 1.0
  {
    var p := OrderByAbs(re, im);
    var small, big := p.0, p.1;
    var a := small / big;
    assert a * big == small;
    var x, y := Abs(a), Abs(big);
    assert x * y == Abs(small);
    assert Abs(small) <= y;
    assert 0.0 < y;
    FactorAtMostOne(x, y, Abs(small));
    assert a * a == x * x;
  }

  /** A non-negative factor that keeps a positive number from growing is at most 1. */
  lemma FactorAtMostOne(x: real, y: real, z: real)
    requires 0.0 <= x && 0.0 < y
    requires x * y == z && z <= y
    ensures x <= 1.0 && x * x <= 1.0
  {
  }

  /** The corrected ordering is still the norm, and so agrees with the source on every real input. */
  lemma MagnitudeByAbsIsNorm(m: MathLib, re: real, im: real)
    requires SqrtLaw(m)
    ensures CalculateMagnitudeByAbs(m, re, im) == m.sqrt(re * re + im * im)
    ensures CalculateMagnitudeByAbs(m, re, im) == CalculateMagnitude(m, re, im)
  {
    var p := OrderByAbs(re, im);
    ScaledNormIsNorm(m, p.0, p.1);
    assert p.0 * p.0 + p.1 * p.1 == re * re + im * im;
    MagnitudeIsNorm(m, re, im);
  }

  // ---- Decibel conversions ----

  /** logarithm: base-10 logarithm at the precision of T. */
  function Logarithm(m: MathLib, value: real): real
  {
    m.log10(value)
  }

  /** magnitudeToDecibel (scalar): 20 * log10(magnitude). */
  function MagnitudeToDecibel(m: MathLib, magnitude: real): real
  {
    20.0 * Logarithm(m, magnitude)
  }

  /** decibelToMagnitude: 10^(decibel / 20). */
  function DecibelToMagnitude(m: MathLib, decibel: real): real
  {
    m.pow(10.0, decibel / 20.0)
  }

  /** calculateDecibel: the magnitude of re + i*im, in decibels. */
  function CalculateDecibel(m: MathLib, re: real, im: real): real
  {
    20.0 * Logarithm(m, CalculateMagnitude(m, re, im))
  }

  /** linearToDecibel: the ratio v1 / v2, in decibels. */
  function LinearToDecibel(m: MathLib, v1: real, v2: real): real
    requires v2 != 0.0
  {
    20.0 * Logarithm(m, v1 / v2)
  }

  /** Under the law 10^log10(x) == x, decibelToMagnitude undoes magnitudeToDecibel on positive magnitudes. */
  lemma DecibelRoundTrip(m: MathLib, magnitude: real)
    requires PowLog10Law(m)
    requires 0.0 < magnitude
    ensures DecibelToMagnitude(m, MagnitudeToDecibel(m, magnitude)) == magnitude
  {
  }

  /** calculateDecibel is magnitudeToDecibel of calculateMagnitude, and needs no
      particular operand order: it is symmetric, and with a true square root it is
      the decibel value of sqrt(re^2 + im^2). */
  lemma CalculateDecibelOfNorm(m: MathLib, re: real, im: real)
    ensures CalculateDecibel(m, re, im) == MagnitudeToDecibel(m, CalculateMagnitude(m, re, im))
    ensures CalculateDecibel(m, re, im) == CalculateDecibel(m, im, re)
    ensures SqrtLaw(m) ==> CalculateDecibel(m, re, im) == MagnitudeToDecibel(m, m.sqrt(re * re + im * im))
  {
    MagnitudeSymmetric(m, re, im);
    if SqrtLaw(m) {
      MagnitudeIsNorm(m, re, im);
    }
  }

  /** linearToDecibel is magnitudeToDecibel of the ratio; a ratio of 1 is the
      level that magnitude 1 has. */
  lemma LinearToDecibelOfRatio(m: MathLib, v1: real, v2: real)
    requires v2 != 0.0
    ensures LinearToDecibel(m, v1, v2) == MagnitudeToDecibel(m, v1 / v2)
    ensures v1 == v2 ==> LinearToDecibel(m, v1, v2) == MagnitudeToDecibel(m, 1.0)
  {
    if v1 == v2 {
      assert v1 / v2 == 1.0;
    }
  }

  /** decibelToMagnitude undoes linearToDecibel: under the law 10^log10(x) == x,
      the level of a positive ratio v1 / v2 converts back to that ratio. */
  lemma LinearDecibelRoundTrip(m: MathLib, v1: real, v2: real)
    requires PowLog10Law(m)
    requires v2 != 0.0 && 0.0 < v1 / v2
    ensures DecibelToMagnitude(m, LinearToDecibel(m, v1, v2)) == v1 / v2
  {
    LinearToDecibelOfRatio(m, v1, v2);
    DecibelRoundTrip(m, v1 / v2);
  }

  /** The batch magnitudeToDecibel: decibelValues[i] := magnitudeToDecibel(magnitudeValues[i])
      for every i < count.  The two arrays may be one and the same: each cell is read
      before it is written and never read again. */
  method MagnitudesToDecibels(m: MathLib, magnitudeValues: array<real>, decibelValues: array<real>, count: nat)
    requires count <= magnitudeValues.Length && count <= decibelValues.Length
    modifies decibelValues
    ensures forall i :: 0 <= i < count ==> decibelValues[i] == MagnitudeToDecibel(m, old(magnitudeValues[i]))
    ensures forall i :: count <= i < decibelValues.Length ==> decibelValues[i] == old(decibelValues[i])
    ensures magnitudeValues != decibelValues ==> magnitudeValues[..] == old(magnitudeValues[..])
  {
    var i := 0;
    while i < count
      invariant 0 <= i <= count
      invariant forall k :: 0 <= k < i ==> decibelValues[k] == MagnitudeToDecibel(m, old(magnitudeValues[k]))
      invariant forall k :: i <= k < decibelValues.Length ==> decibelValues[k] == old(decibelValues[k])
      invariant magnitudeValues != decibelValues ==> magnitudeValues[..] == old(magnitudeValues[..])
    {
      decibelValues[i] := MagnitudeToDecibel(m, magnitudeValues[i]);
      i := i + 1;
    }
  }
}
