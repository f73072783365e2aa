/** The floating-point math library that AndromedaDSP calls into.
    The numeric type `T` of the C++ template (float, double or long double)
    is modelled as `real`.  The transcendental primitives are not computed:
    a `MathLib` value carries them as uninterpreted functions, and the few
    algebraic laws a proof needs are stated as predicates over that value
    and demanded only by the lemmas that use them. */
module Libm {

  /** cos, sqrt, log10 and pow of <cmath>, as the caller's platform defines them. */
  datatype MathLib = MathLib(
    cos: real -> real,
    sqrt: real -> real,
    log10: real -> real,
    pow: (real, real) -> real)

  /** M_PI of <math.h>. */
  const Pi: real := 3.14159265358979323846

  /** The absolute value of a real number. */
  function Abs(x: real): (r: real)
    ensures 0.0 <= r
    ensures r == x || r == -x
    ensures r == 0.0 <==> x == 0.0
  {
    if x < 0.0 then -x else x
  }

  /** sqrt returns the non-negative square root of every non-negative argument. */
  ghost predicate SqrtLaw(m: MathLib)
  {
    forall x :: 0.0 <= x ==> 0.0 <= m.sqrt(x) && m.sqrt(x) * m.sqrt(x) == x
  }

  /** pow(x, 2) is the square of x. */
  ghost predicate PowSquareLaw(m: MathLib)
  {
    forall x :: m.pow(x, 2.0) == x * x
  }

  /** 10 raised to log10(x) gives back x for every positive x. */
  ghost predicate PowLog10Law(m: MathLib)
  {
    forall x :: 0.0 < x ==> m.pow(10.0, m.log10(x)) == x
  }

  /** A square is non-negative, and zero only for zero. */
  lemma SquarePositive(x: real)
    ensures 0.0 <= x * x
    ensures x * x == 0.0 <==> x == 0.0
  {
    if x != 0.0 {
      assert (x * x) / x == x;
    }
    if x < 0.0 {
      assert 0.0 < (-x) * (-x);
    }
  }

  /** The absolute value squares to the square. */
  lemma AbsSquare(x: real)
    ensures 0.0 <= Abs(x) && Abs(x) * Abs(x) == x * x
  {
    if x < 0.0 {
      assert Abs(x) * Abs(x) == (-x) * (-x);
    }
  }

  /** Two non-negative numbers with the same square are equal. */
  lemma NonNegativeSquareUnique(x: real, y: real)
    requires 0.0 <= x && 0.0 <= y
    requires x * x == y * y
    ensures x == y
  {
    assert (x - y) * (x + y) == x * x - y * y;
    if x + y == 0.0 {
      assert x == 0.0 && y == 0.0;
    } else {
      assert x - y == ((x - y) * (x + y)) / (x + y);
    }
  }
}
