/**
 * sqrt of include/functions/math.hpp for the decimal-string revision: small inputs
 * are answered directly, larger ones by Newton's iteration x' = (n / x + x) / 2
 * from 10^(digits / 2 - 1), stopping once two successive estimates differ by at most one.
 */
module DecimalSqrt {
  import opened Wrappers
  import opened DecimalDigits
  import opened DecimalBigInt
  import opened DecimalConversion
  import opened DecimalArithmetic
  import opened DecimalDivision
  import opened DecimalPow

  // ---------------------------------------------------------------------------
  // The integer square root, as a reference
  // ---------------------------------------------------------------------------

  /** The integer square root: the largest s with s * s <= n. */
  function FloorSqrt(n: nat): (s: nat)
    ensures s * s <= n < (s + 1) * (s + 1)
  {
    if n == 0 then 0
    else
      var r := FloorSqrt(n - 1);
      assert (r + 2) * (r + 2) == (r + 1) * (r + 1) + 2 * r + 3;
      if (r + 1) * (r + 1) <= n then r + 1 else r
  }

  lemma SquareMonotone(a: nat, b: nat)
    requires a <= b
    ensures a * a <= b * b
  {
    MulLeftMonotone(a, b, a);
    MulLeftMonotone(a, b, b);
  }

  /** The bounds s * s <= n < (s + 1) * (s + 1) single out FloorSqrt(n). */
  lemma FloorSqrtUnique(n: nat, r: nat)
    requires r * r <= n < (r + 1) * (r + 1)
    ensures r == FloorSqrt(n)
  {
    var s := FloorSqrt(n);
    if r < s {
      SquareMonotone(r + 1, s);
    } else if s < r {
      SquareMonotone(s + 1, r);
    }
  }

  // ---------------------------------------------------------------------------
  // Newton's iteration on integers
  // ---------------------------------------------------------------------------

  /** One step of the iteration: (n / x + x) / 2. */
  function Step(n: nat, x: int): int
    requires x >= 1
  {
    (n / x + x) / 2
  }

  /** What holds between two successive estimates: the first step starts from prev == -1. */
  predicate NewtonState(n: nat, prev: int, cur: int)
  {
    n >= 1 && cur >= 1 && (prev == -1 || (prev >= 1 && cur == Step(n, prev)))
  }

  function Dist(prev: int, cur: int): nat
  {
    if cur < prev then prev - cur else cur - prev
  }

  /** Below the root an estimate jumps to at least the root; above it, estimates fall. */
  function Measure(n: nat, prev: int, cur: int): nat
  {
    MeasureFrom(n, FloorSqrt(n), prev, cur)
  }

  /** The measure for a root s. */
  function MeasureFrom(n: nat, s: nat, prev: int, cur: int): nat
  {
    if Dist(prev, cur) <= 1 then 0
    else if cur < s then n + 2
    else 1 + cur - s
  }

  lemma SquareBelow(s: int, x: int)
    ensures (2 * s - x) * x <= s * s
  {
    assert s * s - (2 * s - x) * x == (s - x) * (s - x);
  }

  lemma QuotientBounds(n: nat, x: int)
    requires x >= 1
    ensures 0 <= n / x <= n && (n / x) * x <= n < (n / x + 1) * x
  {
    assert n == x * (n / x) + n % x;
  }

  // The facts below are about q == n / x, given by q * x <= n < (q + 1) * x,
  // and s == FloorSqrt(n), given by s * s <= n < (s + 1) * (s + 1).

  /** The integer form of the mean inequality: q + x >= 2 * s. */
  lemma MeanAtLeastRoot(n: nat, x: nat, q: nat, s: nat)
    requires x >= 1 && q * x <= n < (q + 1) * x && s * s <= n
    ensures q + x >= 2 * s
  {
    if q + x < 2 * s {
      MulLeftMonotone(q + 1, 2 * s - x, x);
      SquareBelow(s, x);
    }
  }

  lemma QuotientBelowAboveRoot(n: nat, x: nat, q: nat, s: nat)
    requires x > s && q * x <= n < (s + 1) * (s + 1)
    ensures q < x
  {
    if q >= x {
      MulLeftMonotone(x, q, x);
      SquareMonotone(s + 1, x);
    }
  }

  lemma QuotientAtRoot(n: nat, x: nat, q: nat)
    requires x >= 1 && q * x <= n < (x + 1) * (x + 1)
    ensures q <= x + 2
  {
    assert (x + 3) * x == x * x + 3 * x;
    assert (x + 1) * (x + 1) == x * x + 2 * x + 1;
    if q > x + 2 {
      MulLeftMonotone(x + 3, q, x);
    }
  }

  lemma QuotientFarAboveRoot(n: nat, x: nat, q: nat, s: nat)
    requires x >= s + 3 && q * x <= n < (s + 1) * (s + 1)
    ensures q < x - 2
  {
    assert (x - 2) * x == (x - 1) * (x - 1) - 1;
    assert (s + 2) * (s + 2) == (s + 1) * (s + 1) + 2 * s + 3;
    if q >= x - 2 {
      MulLeftMonotone(x - 2, q, x);
      SquareMonotone(s + 2, x - 1);
    }
  }

  lemma StepAtLeastRoot(n: nat, x: int)
    requires x >= 1
    ensures Step(n, x) >= FloorSqrt(n)
  {
    QuotientBounds(n, x);
    MeanAtLeastRoot(n, x, n / x, FloorSqrt(n));
  }

  lemma StepFallsAboveRoot(n: nat, x: int)
    requires x >= 1 && x > FloorSqrt(n)
    ensures Step(n, x) < x
  {
    QuotientBounds(n, x);
    QuotientBelowAboveRoot(n, x, n / x, FloorSqrt(n));
    HalfBelow(n / x, x, 0);
  }

  lemma StepFromRoot(n: nat, x: int)
    requires x >= 1 && x == FloorSqrt(n)
    ensures Step(n, x) <= x + 1
  {
    QuotientBounds(n, x);
    QuotientAtRoot(n, x, n / x);
  }

  lemma StepFarAboveRoot(n: nat, x: int)
    requires x >= 1 && x >= FloorSqrt(n) + 3
    ensures Step(n, x) < x - 1
  {
    QuotientBounds(n, x);
    QuotientFarAboveRoot(n, x, n / x, FloorSqrt(n));
    HalfBelow(n / x, x, 2);
  }

  lemma HalfBelow(q: int, x: int, k: nat)
    requires q < x - k
    ensures (q + x) / 2 < x - k / 2
  {
  }

  /**
   * Where one step of the iteration lands: never below the root; strictly lower
   * from above the root; at most one higher from the root; at least two lower from
   * three or more above it.
   */
  lemma StepFacts(n: nat, x: int)
    requires x >= 1
    ensures Step(n, x) >= FloorSqrt(n)
    ensures x > FloorSqrt(n) ==> Step(n, x) < x
    ensures x == FloorSqrt(n) ==> Step(n, x) <= x + 1
    ensures x >= FloorSqrt(n) + 3 ==> Step(n, x) < x - 1
    ensures x <= n ==> Step(n, x) <= n
  {
    StepAtLeastRoot(n, x);
    if x > FloorSqrt(n) {
      StepFallsAboveRoot(n, x);
    }
    if x == FloorSqrt(n) {
      StepFromRoot(n, x);
    }
    if x >= FloorSqrt(n) + 3 {
      StepFarAboveRoot(n, x);
    }
    QuotientBounds(n, x);
  }

  /** A round that does not stop leads to a state of smaller measure. */
  lemma RoundDecreases(n: nat, prev: int, cur: int)
    requires NewtonState(n, prev, cur) && Dist(prev, cur) > 1
    ensures NewtonState(n, cur, Step(n, cur))
    ensures Measure(n, cur, Step(n, cur)) < Measure(n, prev, cur)
  {
    var next := Step(n, cur);
    StepFacts(n, cur);
    RootBounds(n);
    MeasureFalls(n, FloorSqrt(n), prev, cur, next);
  }

  lemma RootBounds(n: nat)
    requires n >= 1
    ensures 1 <= FloorSqrt(n) <= n
  {
    var s := FloorSqrt(n);
    if s > n {
      MulLeftMonotone(n + 1, s, s);
      assert s * s >= (n + 1) * s;
      MulLeftMonotone(1, s, n + 1);
    }
  }

  /** The measure falls, given where the step lands relative to the root s. */
  lemma MeasureFalls(n: nat, s: nat, prev: int, cur: int, next: int)
    requires 1 <= s <= n && cur >= 1 && Dist(prev, cur) > 1
    requires next >= s
    requires cur > s ==> next < cur
    requires cur == s ==> next <= cur + 1
    requires cur <= n ==> next <= n
    ensures MeasureFrom(n, s, cur, next) < MeasureFrom(n, s, prev, cur)
  {
  }

  /** The estimate the loop returns, from the state (prev, cur). */
  function Newton(n: nat, prev: int, cur: int): int
    requires NewtonState(n, prev, cur)
    decreases Measure(n, prev, cur)
  {
    if Dist(prev, cur) <= 1 then cur
    else
      RoundDecreases(n, prev, cur);
      Newton(n, cur, Step(n, cur))
  }

  /** When the loop stops, the estimate is the root or one above it. */
  lemma StopNearRoot(n: nat, prev: int, cur: int)
    requires NewtonState(n, prev, cur) && Dist(prev, cur) <= 1
    ensures FloorSqrt(n) <= cur <= FloorSqrt(n) + 1
  {
    StepFacts(n, prev);
  }

  lemma {:induction false} NewtonNearRoot(n: nat, prev: int, cur: int)
    requires NewtonState(n, prev, cur)
    ensures FloorSqrt(n) <= Newton(n, prev, cur) <= FloorSqrt(n) + 1
    decreases Measure(n, prev, cur)
  {
    if Dist(prev, cur) <= 1 {
      StopNearRoot(n, prev, cur);
    } else {
      var next := Step(n, cur);
      RoundDecreases(n, prev, cur);
      NewtonNearRoot(n, cur, next);
    }
  }

  /** The whole of sqrt on a non-negative n, as written, on integers. */
  function SqrtAsWritten(n: nat): (r: int)
    ensures FloorSqrt(n) <= r <= FloorSqrt(n) + 1
  {
    if n == 0 then 0
    else if n < 4 then FloorSqrtUnique(n, 1); 1
    else if n < 9 then FloorSqrtUnique(n, 2); 2
    else if n < 16 then FloorSqrtUnique(n, 3); 3
    else
      var start := Pow10(|ToDecimal(n)| / 2 - 1);
      NewtonNearRoot(n, -1, start);
      Newton(n, -1, start)
  }

  /** sqrt(48) is 7, although 7 * 7 > 48: the loop stops on the pair of estimates 8, 7. */
  lemma SqrtAsWrittenOf48()
    ensures SqrtAsWritten(48) == 7 && FloorSqrt(48) == 6 && 7 * 7 > 48
  {
    FloorSqrtUnique(48, 6);
    DigitsOf48();
    NewtonOf48();
  }

  lemma DigitsOf48()
    ensures |ToDecimal(48)| == 2
  {
    var s := ToDecimal(48);
    CanonicalBounds(s);
  }

  /** The estimates from 1 are 24, 13, 8 and 7. */
  lemma NewtonOf48()
    ensures Newton(48, -1, 1) == 7
  {
    assert Newton(48, 8, 7) == 7;
    assert Newton(48, 13, 8) == 7;
    assert Newton(48, 24, 13) == 7;
    assert Newton(48, 1, 24) == 7;
  }

  // ---------------------------------------------------------------------------
  // sqrt on BigInt
  // ---------------------------------------------------------------------------

  /** One round of the loop: sqrt_prev = sqrt_current; sqrt_current = (num / sqrt_prev + sqrt_prev) / 2. */
  method NewtonRound(num: BigInt, cur: BigInt) returns (next: BigInt)
    requires Canonical(num) && Canonical(cur) && ToInt(num) >= 0 && ToInt(cur) >= 1
    ensures Canonical(next) && ToInt(next) == Step(ToInt(num), ToInt(cur))
  {
    DivModOfNatural(num, cur);
    var quotient := Div(num, cur).value;
    var sum := Add(quotient, cur);
    var TWO := FromLongLong(2);
    DivModOfNatural(sum, TWO);
    next := Div(sum, TWO).value;
  }

  /**
   * sqrt: a negative input throws invalid_argument; otherwise the result is the
   * estimate SqrtAsWritten gives, which is the integer square root or one more.
   */
  method Sqrt(num: BigInt) returns (r: Result<BigInt>)
    requires Canonical(num)
    ensures r.Failure? <==> ToInt(num) < 0
    ensures r.Failure? ==> r.error == InvalidArgument("Cannot compute square root of a negative integer")
    ensures r.Success? ==> Canonical(r.value) && ToInt(r.value) == SqrtAsWritten(ToInt(num))
    ensures r.Success? ==> FloorSqrt(ToInt(num)) <= ToInt(r.value) <= FloorSqrt(ToInt(num)) + 1
  {
    if LessLong(num, 0) {
      return Failure(InvalidArgument("Cannot compute square root of a negative integer"));
    }
    var n: nat := ToInt(num);
    if EqLong(num, 0) {
      return Success(FromLongLong(0));
    } else if LessLong(num, 4) {
      return Success(FromLongLong(1));
    } else if LessLong(num, 9) {
      return Success(FromLongLong(2));
    } else if LessLong(num, 16) {
      return Success(FromLongLong(3));
    }
    var root := NewtonLoop(num);
    r := Success(root);
  }

  /** One pass of the loop body, from a pair of estimates that are still more than one apart. */
  method NewtonAdvance(num: BigInt, prev: BigInt, cur: BigInt) returns (prev': BigInt, cur': BigInt, difference': BigInt)
    requires Canonical(num) && Canonical(prev) && Canonical(cur) && ToInt(num) >= 1
    requires NewtonState(ToInt(num), ToInt(prev), ToInt(cur)) && Dist(ToInt(prev), ToInt(cur)) > 1
    ensures Canonical(prev') && Canonical(cur') && Canonical(difference')
    ensures ToInt(difference') == ToInt(cur') - ToInt(prev')
    ensures NewtonState(ToInt(num), ToInt(prev'), ToInt(cur'))
    ensures Newton(ToInt(num), ToInt(prev'), ToInt(cur')) == Newton(ToInt(num), ToInt(prev), ToInt(cur))
    ensures Measure(ToInt(num), ToInt(prev'), ToInt(cur')) < Measure(ToInt(num), ToInt(prev), ToInt(cur))
  {
    RoundDecreases(ToInt(num), ToInt(prev), ToInt(cur));
    prev' := cur;
    cur' := NewtonRound(num, cur);
    difference' := Sub(cur', prev');
  }

  /** Before the loop: sqrt_prev = -1 and sqrt_current = 10^(digits / 2 - 1). */
  method NewtonStart(num: BigInt) returns (prev: BigInt, cur: BigInt, difference: BigInt)
    requires Canonical(num) && ToInt(num) >= 16
    ensures Canonical(prev) && Canonical(cur) && Canonical(difference)
    ensures ToInt(prev) == -1 && ToInt(cur) == Pow10(|ToDecimal(ToInt(num))| / 2 - 1)
    ensures ToInt(difference) == ToInt(cur) - ToInt(prev)
    ensures NewtonState(ToInt(num), ToInt(prev), ToInt(cur))
  {
    CanonicalInjective(num.value, ToDecimal(ToInt(num)));
    prev := FromLongLong(-1);
    cur := BigPow10(|ToString(num)| / 2 - 1);
    difference := Sub(cur, prev);
  }

  /** The Newton loop of sqrt, for inputs of at least 16. */
  method NewtonLoop(num: BigInt) returns (r: BigInt)
    requires Canonical(num) && ToInt(num) >= 16
    ensures Canonical(r) && ToInt(r) == SqrtAsWritten(ToInt(num))
  {
    ghost var n: nat := ToInt(num);
    var prev, cur, difference := NewtonStart(num);
    ghost var start := ToInt(cur);
    while GreaterLong(Abs(difference), 1)
      invariant Canonical(prev) && Canonical(cur) && Canonical(difference)
      invariant ToInt(difference) == ToInt(cur) - ToInt(prev)
      invariant NewtonState(n, ToInt(prev), ToInt(cur))
      invariant Newton(n, ToInt(prev), ToInt(cur)) == Newton(n, -1, start)
      decreases Measure(n, ToInt(prev), ToInt(cur))
    {
      prev, cur, difference := NewtonAdvance(num, prev, cur);
    }
    NewtonStops(n, ToInt(prev), ToInt(cur));
    SqrtAsWrittenFromSixteen(n);
    r := cur;
  }

  lemma NewtonStops(n: nat, prev: int, cur: int)
    requires NewtonState(n, prev, cur) && Dist(prev, cur) <= 1
    ensures Newton(n, prev, cur) == cur
  {
  }

  lemma SqrtAsWrittenFromSixteen(n: nat)
    requires n >= 16
    ensures SqrtAsWritten(n) == Newton(n, -1, Pow10(|ToDecimal(n)| / 2 - 1))
  {
  }

  /**
   * The integer square root: the estimate sqrt returns, lowered by one when its
   * square exceeds the input.
   */
  method SqrtFloor(num: BigInt) returns (r: Result<BigInt>)
    requires Canonical(num)
    ensures r.Failure? <==> ToInt(num) < 0
    ensures r.Success? ==> Canonical(r.value) && ToInt(r.value) == FloorSqrt(ToInt(num))
  {
    r := Sqrt(num);
    if r.Failure? {
      return;
    }
    var estimate := r.value;
    var square := Mul(estimate, estimate);
    EstimateCases(ToInt(num), ToInt(estimate));
    if Greater(square, num) {
      var lowered := Sub(estimate, FromLongLong(1));
      r := Success(lowered);
    }
  }

  /** An estimate within one above the floor square root is the floor, or one more when its square is too big. */
  lemma EstimateCases(n: nat, e: nat)
    requires FloorSqrt(n) <= e <= FloorSqrt(n) + 1
    ensures e * e > n ==> e >= 1 && e - 1 == FloorSqrt(n)
    ensures e * e <= n ==> e == FloorSqrt(n)
  {
    var s := FloorSqrt(n);
    if e == s + 1 {
      assert e * e == (s + 1) * (s + 1);
    } else {
      assert e * e == s * s;
    }
  }
}
