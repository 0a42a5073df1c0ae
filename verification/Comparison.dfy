/** The two closeness relations on numbers. */
module Comparison {

  /** 42 times the machine epsilon of a double. */
  const TOLERANCE: real := 42.0 / 4503599627370496.0

  function Abs(x: real): real { if x < 0.0 then -x else x }

  /** `close` */
  predicate Close(x: real, y: real) {
    x == y ||
    (if x * y == 0.0 then Abs(x - y) < TOLERANCE * TOLERANCE
     else Abs(x - y) <= TOLERANCE * Abs(x) && Abs(x - y) <= TOLERANCE * Abs(y))
  }

  /** `close_enough` */
  predicate CloseEnough(x: real, y: real) {
    x == y ||
    (if x * y == 0.0 then Abs(x - y) < TOLERANCE * TOLERANCE
     else Abs(x - y) <= TOLERANCE * Abs(x) || Abs(x - y) <= TOLERANCE * Abs(y))
  }

  function Smaller(x: real, y: real): real { if x < y then x else y }

  function Larger(x: real, y: real): real { if x < y then y else x }

  /** Two nonzero numbers are close when they differ by at most 42 epsilons of the smaller, and close
      enough when by at most that of the larger. A number is close to zero when it is below the square
      of that. */
  lemma CloseMeaning(x: real, y: real)
    requires x != 0.0 && y != 0.0
    ensures TOLERANCE * 4503599627370496.0 == 42.0
    ensures Close(x, y) <==> Abs(x - y) <= TOLERANCE * Smaller(Abs(x), Abs(y))
    ensures CloseEnough(x, y) <==> Abs(x - y) <= TOLERANCE * Larger(Abs(x), Abs(y))
    ensures (Close(x, 0.0) <==> Abs(x) < TOLERANCE * TOLERANCE) && (CloseEnough(x, 0.0) <==> Close(x, 0.0))
  {
    assert x * y != 0.0 && TOLERANCE > 0.0;
    ToleranceOf(Abs(x), Abs(y));
    ToleranceOf(Abs(y), Abs(x));
    if x == y {
      Positive(TOLERANCE, Abs(x));
    }
  }

  lemma ToleranceOf(a: real, b: real)
    ensures a <= b ==> TOLERANCE * a <= TOLERANCE * b
  {
  }

  lemma Positive(a: real, b: real)
    requires a > 0.0 && b > 0.0
    ensures a * b > 0.0
  {
  }

  /** Both relations are reflexive and symmetric, and the first is the finer one. */
  lemma CloseRelations(x: real, y: real)
    ensures Close(x, x) && CloseEnough(x, x)
    ensures (Close(x, y) <==> Close(y, x)) && (CloseEnough(x, y) <==> CloseEnough(y, x))
    ensures Close(x, y) ==> CloseEnough(x, y)
  {
    assert x * y == y * x;
  }
}
