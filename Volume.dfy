/** calculateVolumeDbLevel of AndromedaDSP: the decibel level of the RMS of
    the per-sample mean of a left and a right channel. */
module Volume {
  import opened Libm
  import Magnitude

  /** The term sample i adds to the sum: pow((left + right) / 2, 2). */
  function MeanSquare(m: MathLib, left: real, right: real): real
  {
    m.pow((left + right) / 2.0, 2.0)
  }

  /** The sum over every position i of pow((left[i] + right[i]) / 2, 2),
      accumulated from the first position to the last. */
  function SumOfSquares(m: MathLib, left: seq<real>, right: seq<real>): real
    requires |left| == |right|
    decreases |left|
  {
    if |left| == 0 then 0.0
    else
      var k := |left| - 1;
      SumOfSquares(m, left[..k], right[..k]) + MeanSquare(m, left[k], right[k])
  }

  /** calculateVolumeDbLevel: 20 * log10(sqrt(sum / count)) where sum is the
      accumulated SumOfSquares of the first count samples of both channels. */
  method CalculateVolumeDbLevel(m: MathLib, leftBuffer: array<real>, rightBuffer: array<real>, count: nat)
    returns (volume: real)
    requires count <= leftBuffer.Length && count <= rightBuffer.Length
    requires 0 < count
    ensures volume == Magnitude.MagnitudeToDecibel(m, m.sqrt(SumOfSquares(m, leftBuffer[..count], rightBuffer[..count]) / count as real))
  {
    var sum := 0.0;
    var i := 0;
    while i < count
      invariant 0 <= i <= count
      invariant sum == SumOfSquares(m, leftBuffer[..i], rightBuffer[..i])
    {
      assert leftBuffer[..i + 1][..i] == leftBuffer[..i];
      assert rightBuffer[..i + 1][..i] == rightBuffer[..i];
      sum := sum + m.pow((leftBuffer[i] + rightBuffer[i]) / 2.0, 2.0);
      i := i + 1;
    }
    volume := 20.0 * Magnitude.Logarithm(m, m.sqrt(sum / count as real));
  }

  /** Swapping the left and right channel does not change the sum. */
  lemma {:induction false} SumOfSquaresSwap(m: MathLib, left: seq<real>, right: seq<real>)
    requires |left| == |right|
    ensures SumOfSquares(m, left, right) == SumOfSquares(m, right, left)
    decreases |left|
  {
    if |left| != 0 {
      var k := |left| - 1;
      SumOfSquaresSwap(m, left[..k], right[..k]);
      assert left[k] + right[k] == right[k] + left[k];
    }
  }

  /** Where pow(x, 2) is x*x, the sum is non-negative, and it is zero exactly
      when every left sample is the negation of its right sample (the channels
      cancel, as they do in silence). */
  lemma {:induction false} SumOfSquaresZero(m: MathLib, left: seq<real>, right: seq<real>)
    requires PowSquareLaw(m)
    requires |left| == |right|
    ensures 0.0 <= SumOfSquares(m, left, right)
    ensures SumOfSquares(m, left, right) == 0.0 <==> forall i :: 0 <= i < |left| ==> left[i] + right[i] == 0.0
    decreases |left|
  {
    if |left| != 0 {
      var k := |left| - 1;
      SumOfSquaresZero(m, left[..k], right[..k]);
      MeanSquareSign(m, left[k], right[k]);
      if SumOfSquares(m, left, right) == 0.0 {
        forall i | 0 <= i < |left|
          ensures left[i] + right[i] == 0.0
        {
          if i < k {
            assert left[..k][i] == left[i] && right[..k][i] == right[i];
          }
        }
      }
      if forall i :: 0 <= i < |left| ==> left[i] + right[i] == 0.0 {
        assert forall i :: 0 <= i < k ==> left[..k][i] + right[..k][i] == 0.0;
      }
    }
  }

  /** Where pow(x, 2) is x*x, the term of one sample is non-negative, and zero
      exactly when its two channels cancel. */
  lemma MeanSquareSign(m: MathLib, left: real, right: real)
    requires PowSquareLaw(m)
    ensures 0.0 <= MeanSquare(m, left, right)
    ensures MeanSquare(m, left, right) == 0.0 <==> left + right == 0.0
  {
    var x := (left + right) / 2.0;
    assert MeanSquare(m, left, right) == x * x;
    SquarePositive(x);
  }

  /** Two buffers of silence give a zero sum; with a true square root the level
      computed is then that of magnitude 0, the value magnitudeToDecibel gives sqrt(0). */
  lemma SilenceSumIsZero(m: MathLib, leftBuffer: array<real>, rightBuffer: array<real>, count: nat)
    requires PowSquareLaw(m)
    requires 0 < count <= leftBuffer.Length && count <= rightBuffer.Length
    requires forall i :: 0 <= i < count ==> leftBuffer[i] == 0.0 && rightBuffer[i] == 0.0
    ensures SumOfSquares(m, leftBuffer[..count], rightBuffer[..count]) == 0.0
    ensures SqrtLaw(m) ==>
      Magnitude.MagnitudeToDecibel(m, m.sqrt(SumOfSquares(m, leftBuffer[..count], rightBuffer[..count]) / count as real))
      == Magnitude.MagnitudeToDecibel(m, 0.0)
  {
    SumOfSquaresZero(m, leftBuffer[..count], rightBuffer[..count]);
    if SqrtLaw(m) {
      assert 0.0 / count as real == 0.0;
      SquarePositive(m.sqrt(0.0));
    }
  }
}
