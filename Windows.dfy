/** The window generators of AndromedaDSP.  Each returns a fresh array of
    coefficients; cos is the platform's, so every property below holds
    whatever values cos takes, unless a lemma names a law of cos it uses. */
module Windows {
  import opened Libm

  function Min(a: int, b: int): int
  {
    if a < b then a else b
  }

  // ---- hanningMultipliers, hammingMultipliers, blackmanMultipliers ----

  /** The angle 2*pi*i/(size-1) shared by the three plain windows. */
  function Angle(i: nat, size: nat): real
    requires 2 <= size
  {
    2.0 * Pi * (i as real) / ((size - 1) as real)
  }

  /** Coefficient i of the size-point Hanning window: 0.5 * (1 - cos(2*pi*i/(size-1))). */
  function HanningCoefficient(m: MathLib, i: nat, size: nat): real
    requires 2 <= size
  {
    0.5 * (1.0 - m.cos(Angle(i, size)))
  }

  /** Coefficient i of the size-point Hamming window: 0.53836 - 0.46164 * cos(2*pi*i/(size-1)). */
  function HammingCoefficient(m: MathLib, i: nat, size: nat): real
    requires 2 <= size
  {
    0.53836 - 0.46164 * m.cos(Angle(i, size))
  }

  /** Coefficient i of the size-point Blackman window:
      0.42 - 0.5 * cos(2*pi*i/(size-1)) + 0.08 * cos(4*pi*i/(size-1)). */
  function BlackmanCoefficient(m: MathLib, i: nat, size: nat): real
    requires 2 <= size
  {
    0.42 - 0.5 * m.cos(Angle(i, size)) + 0.08 * m.cos(2.0 * Angle(i, size))
  }

  /** hanningMultipliers: a new array of dataSize Hanning coefficients. */
  method HanningMultipliers(m: MathLib, dataSize: nat) returns (multipliers: array<real>)
    requires dataSize != 1
    ensures fresh(multipliers) && multipliers.Length == dataSize
    ensures forall i :: 0 <= i < dataSize ==> multipliers[i] == HanningCoefficient(m, i, dataSize)
  {
    multipliers := new real[dataSize];
    for i := 0 to dataSize
      invariant forall k :: 0 <= k < i ==> multipliers[k] == HanningCoefficient(m, k, dataSize)
    {
      multipliers[i] := HanningCoefficient(m, i, dataSize);
    }
  }

  /** hammingMultipliers: a new array of windowLength Hamming coefficients. */
  method HammingMultipliers(m: MathLib, windowLength: nat) returns (timeDomain: array<real>)
    requires windowLength != 1
    ensures fresh(timeDomain) && timeDomain.Length == windowLength
    ensures forall i :: 0 <= i < windowLength ==> timeDomain[i] == HammingCoefficient(m, i, windowLength)
  {
    timeDomain := new real[windowLength];
    for i := 0 to windowLength
      invariant forall k :: 0 <= k < i ==> timeDomain[k] == HammingCoefficient(m, k, windowLength)
    {
      timeDomain[i] := HammingCoefficient(m, i, windowLength);
    }
  }

  /** blackmanMultipliers: a new array of windowLength Blackman coefficients. */
  method BlackmanMultipliers(m: MathLib, windowLength: nat) returns (timeDomain: array<real>)
    requires windowLength != 1
    ensures fresh(timeDomain) && timeDomain.Length == windowLength
    ensures forall i :: 0 <= i < windowLength ==> timeDomain[i] == BlackmanCoefficient(m, i, windowLength)
  {
    timeDomain := new real[windowLength];
    for i := 0 to windowLength
      invariant forall k :: 0 <= k < i ==> timeDomain[k] == BlackmanCoefficient(m, k, windowLength)
    {
      timeDomain[i] := BlackmanCoefficient(m, i, windowLength);
    }
  }

  /** At both ends of a plain window the angle is 0 and 2*pi (4*pi for Blackman's
      second term); where cos is 1 there, the Hanning ends are 0, the Hamming ends
      are 0.53836 - 0.46164 and the Blackman ends are 0.42 - 0.5 + 0.08 = 0. */
  lemma PlainWindowEndpoints(m: MathLib, size: nat)
    requires 2 <= size
    requires m.cos(0.0) == 1.0 && m.cos(2.0 * Pi) == 1.0 && m.cos(4.0 * Pi) == 1.0
    ensures HanningCoefficient(m, 0, size) == 0.0 && HanningCoefficient(m, size - 1, size) == 0.0
    ensures HammingCoefficient(m, 0, size) == 0.07672 && HammingCoefficient(m, size - 1, size) == 0.07672
    ensures BlackmanCoefficient(m, 0, size) == 0.0 && BlackmanCoefficient(m, size - 1, size) == 0.0
  {
    var d := (size - 1) as real;
    assert Angle(0, size) == 0.0;
    assert Angle(size - 1, size) == 2.0 * Pi by {
      assert (2.0 * Pi) * d == 2.0 * Pi * ((size - 1) as real);
    }
    assert 2.0 * Angle(size - 1, size) == 4.0 * Pi;
  }

  /** Where cos stays within [-1, 1], each Hanning coefficient lies in [0, 1] and
      each Hamming coefficient in [0.07672, 1]. */
  lemma PlainWindowRange(m: MathLib, i: nat, size: nat)
    requires 2 <= size
    requires -1.0 <= m.cos(Angle(i, size)) <= 1.0
    ensures 0.0 <= HanningCoefficient(m, i, size) <= 1.0
    ensures 0.07672 <= HammingCoefficient(m, i, size) <= 1.0
  {
  }

  // ---- hanningMultipliersMatlab ----

  /** CALC_HANNING: sample i of the n-point curve, 0.5 * (1 - cos(2*pi*(i+1)/(n+1))). */
  function HanningSample(m: MathLib, i: int, n: nat): real
  {
    0.5 * (1.0 - m.cos(2.0 * Pi * ((i + 1) as real) / ((n + 1) as real)))
  }

  /** How many samples are computed for an n-point curve: n/2 for even n,
      (n+1)/2 for odd n (the middle sample belongs to the first half). */
  function Half(n: nat): (h: nat)
    ensures h + h == n || h + h == n + 1
  {
    if n % 2 == 0 then n / 2 else (n + 1) / 2
  }

  /** The n-point symmetric Hanning window as a reference definition: position i
      holds the sample of whichever of i and n-1-i is nearer the start. */
  function SymmetricHanning(m: MathLib, n: nat): (w: seq<real>)
    ensures |w| == n
  {
    seq(n, i requires 0 <= i < n => HanningSample(m, Min(i, n - 1 - i), n))
  }

  /** What hanning(N, 'symmetric') and hanning(N, 'periodic') return: the
      periodic window of length N is a 0 followed by the symmetric window of
      length N-1.  Only itype == 1 selects periodic. */
  function HanningMatlab(m: MathLib, N: nat, itype: int): (w: seq<real>)
    requires itype == 1 ==> 1 <= N
    ensures |w| == N
  {
    if itype == 1 then [0.0] + SymmetricHanning(m, N - 1) else SymmetricHanning(m, N)
  }

  /** hanningMultipliersMatlab: zero-fill, compute the first half, mirror it into
      the second half with a decrementing source index, and in periodic mode
      shift everything right by one and clear position 0. */
  method HanningMultipliersMatlab(m: MathLib, N: nat, itype: int := 0) returns (w: array<real>)
    requires itype == 1 ==> 1 <= N
    ensures fresh(w)
    ensures w[..] == HanningMatlab(m, N, itype)
  {
    w := new real[N](_ => 0.0);
    var n: nat := if itype == 1 then N - 1 else N;
    var half: nat;
    var idx: int;
    if n % 2 == 0 {
      half := n / 2;
      CalcHanning(m, w, n, half);
      idx := half - 1;
      MirrorFirstHalf(w, n, half, idx);
    } else {
      half := (n + 1) / 2;
      CalcHanning(m, w, n, half);
      idx := half - 2;
      MirrorFirstHalf(w, n, half, idx);
    }
    assert half == Half(n);
    SymmetricHalves(m, n);
    assert forall k :: 0 <= k < n ==> w[k] == SymmetricHanning(m, n)[k];
    assert n == N ==> w[..] == SymmetricHanning(m, n);

    if itype == 1 {
      ghost var before := w[..];
      ShiftRightByOne(w);
      w[0] := 0.0;
      assert forall k :: 1 <= k < N ==> w[k] == before[k - 1] == SymmetricHanning(m, n)[k - 1];
      assert w[..] == [0.0] + SymmetricHanning(m, n);
    }
  }

  /** The first loop of hanningMultipliersMatlab: w[i] := CALC_HANNING sample i
      for every i < half; the rest of w is left alone. */
  method CalcHanning(m: MathLib, w: array<real>, n: nat, half: nat)
    requires half <= w.Length
    modifies w
    ensures forall k :: 0 <= k < half ==> w[k] == HanningSample(m, k, n)
    ensures forall k :: half <= k < w.Length ==> w[k] == old(w[k])
  {
    var i := 0;
    while i < half
      invariant 0 <= i <= half
      invariant forall k :: 0 <= k < i ==> w[k] == HanningSample(m, k, n)
      invariant forall k :: i <= k < w.Length ==> w[k] == old(w[k])
    {
      w[i] := HanningSample(m, i, n);
      i := i + 1;
    }
  }

  /** The second loop of hanningMultipliersMatlab: for i from half up to n-1,
      w[i] := w[idx] with idx starting at idx0 and counting down.  When idx0 is
      n-1-half (half-1 for even n, half-2 for odd n), position i receives the
      first-half position n-1-i, which the loop never overwrites. */
  method MirrorFirstHalf(w: array<real>, n: nat, half: nat, idx0: int)
    requires half <= n <= w.Length && n <= half + half
    requires idx0 == n - 1 - half
    modifies w
    ensures forall k :: 0 <= k < half ==> w[k] == old(w[k])
    ensures forall k :: half <= k < n ==> w[k] == old(w[n - 1 - k])
    ensures forall k :: n <= k < w.Length ==> w[k] == old(w[k])
  {
    var idx := idx0;
    var i := half;
    while i < n
      invariant half <= i <= n
      invariant idx == n - 1 - i
      invariant forall k :: 0 <= k < half ==> w[k] == old(w[k])
      invariant forall k :: half <= k < i ==> w[k] == old(w[n - 1 - k])
      invariant forall k :: i <= k < w.Length ==> w[k] == old(w[k])
    {
      w[i] := w[idx];
      idx := idx - 1;
      i := i + 1;
    }
  }

  /** The periodic shift of hanningMultipliersMatlab: for i from N-1 down to 1,
      w[i] := w[i-1].  Going downwards, every cell is read before it is overwritten. */
  method ShiftRightByOne(w: array<real>)
    modifies w
    ensures w.Length == 0 || w[0] == old(w[0])
    ensures forall k :: 1 <= k < w.Length ==> w[k] == old(w[k - 1])
  {
    var i: int := w.Length - 1;
    while i >= 1
      invariant -1 <= i <= w.Length - 1
      invariant w.Length != 0 ==> 0 <= i
      invariant forall k :: 0 <= k <= i ==> w[k] == old(w[k])
      invariant forall k :: i < k < w.Length ==> w[k] == old(w[k - 1])
    {
      w[i] := w[i - 1];
      i := i - 1;
    }
  }

  /** Below Half(n) the symmetric window holds the computed sample itself; from
      Half(n) on it holds a copy of the mirrored position n-1-k, which lies in the
      first half. */
  lemma SymmetricHalves(m: MathLib, n: nat)
    ensures forall k :: 0 <= k < Half(n) ==> SymmetricHanning(m, n)[k] == HanningSample(m, k, n)
    ensures forall k :: Half(n) <= k < n ==> SymmetricHanning(m, n)[k] == HanningSample(m, n - 1 - k, n)
  {
    var w, h := SymmetricHanning(m, n), Half(n);
    forall k | 0 <= k < h
      ensures w[k] == HanningSample(m, k, n)
    {
      assert Min(k, n - 1 - k) == k;
    }
    forall k | h <= k < n
      ensures w[k] == HanningSample(m, n - 1 - k, n)
    {
      assert Min(k, n - 1 - k) == n - 1 - k;
    }
  }

  /** In symmetric mode (itype != 1) the window reads the same from both ends. */
  lemma SymmetricModeMirror(m: MathLib, N: nat, itype: int)
    requires itype != 1
    ensures forall i :: 0 <= i < N ==> HanningMatlab(m, N, itype)[i] == HanningMatlab(m, N, itype)[N - 1 - i]
  {
    SymmetricMirror(m, N);
  }

  /** The reference symmetric window reads the same from both ends. */
  lemma SymmetricMirror(m: MathLib, n: nat)
    ensures forall i :: 0 <= i < n ==> SymmetricHanning(m, n)[i] == SymmetricHanning(m, n)[n - 1 - i]
  {
    var w := SymmetricHanning(m, n);
    forall i | 0 <= i < n
      ensures w[i] == w[n - 1 - i]
    {
      assert Min(i, n - 1 - i) == Min(n - 1 - i, n - 1 - (n - 1 - i));
    }
  }

  /** In symmetric mode the first Half(N) positions are computed samples and every
      later position i copies position N-1-i, which (as Half's contract gives)
      lies in the first half. */
  lemma SymmetricModeFirstHalf(m: MathLib, N: nat, itype: int)
    requires itype != 1
    ensures forall i :: 0 <= i < Half(N) ==> HanningMatlab(m, N, itype)[i] == HanningSample(m, i, N)
    ensures forall i :: Half(N) <= i < N ==> HanningMatlab(m, N, itype)[i] == HanningSample(m, N - 1 - i, N)
    ensures forall i :: Half(N) <= i < N ==> HanningMatlab(m, N, itype)[i] == HanningMatlab(m, N, itype)[N - 1 - i]
  {
    SymmetricHalves(m, N);
  }

  /** In periodic mode the window starts with 0, position i >= 1 holds position i-1
      of the (N-1)-point symmetric window, and so positions i and N-i agree. */
  lemma PeriodicModeShifted(m: MathLib, N: nat)
    requires 1 <= N
    ensures HanningMatlab(m, N, 1)[0] == 0.0
    ensures forall i :: 1 <= i < N ==> HanningMatlab(m, N, 1)[i] == SymmetricHanning(m, N - 1)[i - 1]
    ensures forall i :: 1 <= i < N ==> HanningMatlab(m, N, 1)[i] == HanningMatlab(m, N, 1)[N - i]
  {
    SymmetricMirror(m, N - 1);
  }

  /** Every itype other than 1 gives the symmetric window, exactly as itype 0 does. */
  lemma OnlyItypeOneIsPeriodic(m: MathLib, N: nat, itype: int)
    requires itype != 1
    ensures HanningMatlab(m, N, itype) == HanningMatlab(m, N, 0)
    ensures HanningMatlab(m, N, itype) == SymmetricHanning(m, N)
  {
  }
}
