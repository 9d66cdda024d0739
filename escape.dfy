/** The escape-time classification of one sample point `c`: the bounded loop
    `while iter < max_iter && |z| <= 2 { z = z*z + c; iter += 1 }` of
    `generate_mandelbrot` (src/main.rs:104-110). */
module Escape {
  import opened ComplexNumbers
  import opened Arith

  /** The escape radius 2, squared. */
  const RadiusSq: real := 4.0

  /** `|z| <= 2`, the loop's continuation test on the current iterate. */
  predicate Within(z: Complex) {
    NormSq(z) <= RadiusSq
  }

  /** One step of the recurrence: z*z + c. */
  function Step(z: Complex, c: Complex): Complex {
    Add(Mul(z, z), c)
  }

  /** The k-th iterate z_k of z_0 = 0, z_{k+1} = z_k^2 + c. */
  function Orbit(c: Complex, k: nat): Complex {
    if k == 0 then Zero else Step(Orbit(c, k - 1), c)
  }

  /** The reference meaning of the loop's final counter `n` for budget
      `maxIter`: every iterate before `n` was within the radius, and, unless
      the budget ran out, the iterate `z_n` is outside it. */
  ghost predicate IsEscapeCount(c: Complex, maxIter: nat, n: nat) {
    && n <= maxIter
    && (forall k :: 0 <= k < n ==> Within(Orbit(c, k)))
    && (n < maxIter ==> !Within(Orbit(c, n)))
  }

  /** The counter the loop stops at when it is resumed at iteration `k`. */
  function EscapeFrom(c: Complex, k: nat, maxIter: nat): (n: nat)
    requires k <= maxIter
    ensures k <= n <= maxIter
    ensures n < maxIter ==> !Within(Orbit(c, n))
    decreases maxIter - k
  {
    if k < maxIter && Within(Orbit(c, k)) then EscapeFrom(c, k + 1, maxIter) else k
  }

  /** The iteration count the escape loop ends with for sample point `c`. */
  function EscapeCount(c: Complex, maxIter: nat): (n: nat)
    ensures n <= maxIter
  {
    EscapeFrom(c, 0, maxIter)
  }

  lemma {:induction false} EscapeFromIsEscapeCount(c: Complex, k: nat, maxIter: nat)
    requires k <= maxIter
    requires forall j :: 0 <= j < k ==> Within(Orbit(c, j))
    ensures IsEscapeCount(c, maxIter, EscapeFrom(c, k, maxIter))
    decreases maxIter - k
  {
    if k < maxIter && Within(Orbit(c, k)) {
      EscapeFromIsEscapeCount(c, k + 1, maxIter);
    }
  }

  /** EscapeCount meets the reference meaning: the loop stops at the first
      iterate outside the radius, or at the budget. */
  lemma EscapeCountIsEscapeCount(c: Complex, maxIter: nat)
    ensures IsEscapeCount(c, maxIter, EscapeCount(c, maxIter))
  {
    EscapeFromIsEscapeCount(c, 0, maxIter);
  }

  /** ... and it is the only count that does. */
  lemma EscapeCountUnique(c: Complex, maxIter: nat, n: nat)
    requires IsEscapeCount(c, maxIter, n)
    ensures n == EscapeCount(c, maxIter)
  {
    EscapeCountIsEscapeCount(c, maxIter);
  }

  /** The escape loop itself, with its mutable `z` and `iter`. */
  method EscapeIteration(c: Complex, maxIter: nat) returns (iter: nat, z: Complex)
    ensures iter == EscapeCount(c, maxIter)
    ensures z == Orbit(c, iter)
    ensures iter <= maxIter
    ensures iter < maxIter ==> NormSq(z) > RadiusSq
  {
    z := Zero;
    iter := 0;
    while iter < maxIter && NormSq(z) <= RadiusSq
      invariant iter <= maxIter
      invariant z == Orbit(c, iter)
      invariant EscapeFrom(c, iter, maxIter) == EscapeCount(c, maxIter)
      decreases maxIter - iter
    {
      z := Step(z, c);
      iter := iter + 1;
    }
  }

  /** The first iterate is z_0 = 0, which is never outside the radius, so the
      loop runs at least once whenever the budget allows: the count of a pixel
      is never 0 unless `maxIter` is. */
  lemma EscapeCountPositive(c: Complex, maxIter: nat)
    requires maxIter >= 1
    ensures EscapeCount(c, maxIter) >= 1
  {
    assert Orbit(c, 0) == Zero;
  }

  lemma {:induction false} OriginOrbit(k: nat)
    ensures Orbit(Zero, k) == Zero
  {
    if k > 0 {
      OriginOrbit(k - 1);
    }
  }

  /** A point whose iterates all stay within the radius uses the whole budget. */
  lemma BoundedOrbitUsesBudget(c: Complex, maxIter: nat)
    requires forall k :: 0 <= k < maxIter ==> Within(Orbit(c, k))
    ensures EscapeCount(c, maxIter) == maxIter
  {
    assert IsEscapeCount(c, maxIter, maxIter);
    EscapeCountUnique(c, maxIter, maxIter);
  }

  /** The point 0 + 0i never escapes: its count is the whole budget. */
  lemma OriginNeverEscapes(maxIter: nat)
    ensures EscapeCount(Zero, maxIter) == maxIter
  {
    forall k | 0 <= k < maxIter
      ensures Within(Orbit(Zero, k))
    {
      OriginOrbit(k);
      assert NormSq(Zero) == 0.0;
    }
    BoundedOrbitUsesBudget(Zero, maxIter);
  }

  /** The point 2 + 2i lies outside the radius, so its orbit leaves it at the
      first iterate after z_0: the count is 1 for any budget of at least 1
      (with a budget of 1 the pixel is still painted black, since 1 is not
      below the budget). */
  lemma FarPointEscapesAtOnce(maxIter: nat)
    requires maxIter >= 1
    ensures EscapeCount(Complex(2.0, 2.0), maxIter) == 1
  {
    var c := Complex(2.0, 2.0);
    assert Orbit(c, 0) == Zero;
    assert Orbit(c, 1) == c;
    assert NormSq(c) == 8.0;
    assert IsEscapeCount(c, maxIter, 1);
    EscapeCountUnique(c, maxIter, 1);
  }

  /** For a in [-0.5, 0], a^2 lies in [0, 0.25]. */
  lemma SquareOnSegment(a: real)
    requires -0.5 <= a <= 0.0
    ensures 0.0 <= a * a
    ensures a * a <= 0.25
  {
    var b := -a;
    assert a * a == b * b;
    ProductNonneg(0.5 - b, 0.5 + b);
    assert 0.25 - b * b == (0.5 - b) * (0.5 + b);
  }

  /** One step from the real segment [-0.5, 0] with c = -0.5 + 0i lands in
      [-0.5, -0.25] on the real axis again. */
  lemma StepOnSegment(z: Complex, c: Complex)
    requires z.im == 0.0 && -0.5 <= z.re <= 0.0 && c == Complex(-0.5, 0.0)
    ensures Step(z, c).im == 0.0 && -0.5 <= Step(z, c).re <= -0.25
  {
    SquareOnSegment(z.re);
    assert Mul(z, z) == Complex(z.re * z.re, 0.0);
  }

  /** The real point -0.5 + 0i: its orbit stays on the real segment [-0.5, 0]. */
  lemma {:induction false} MinusHalfOrbit(c: Complex, k: nat)
    requires c == Complex(-0.5, 0.0)
    ensures Orbit(c, k).im == 0.0 && -0.5 <= Orbit(c, k).re <= 0.0
  {
    if k > 0 {
      MinusHalfOrbit(c, k - 1);
      StepOnSegment(Orbit(c, k - 1), c);
    }
  }

  /** A point of the real segment [-0.5, 0] lies within the radius. */
  lemma SegmentWithin(z: Complex)
    requires z.im == 0.0 && -0.5 <= z.re <= 0.0
    ensures Within(z)
  {
    SquareOnSegment(z.re);
    assert NormSq(z) == z.re * z.re + 0.0 * 0.0;
  }

  /** Every iterate of -0.5 + 0i lies within the radius. */
  lemma MinusHalfWithin(c: Complex, k: nat)
    requires c == Complex(-0.5, 0.0)
    ensures Within(Orbit(c, k))
  {
    MinusHalfOrbit(c, k);
    SegmentWithin(Orbit(c, k));
  }

  /** The point -0.5 + 0i, inside the main cardioid, never escapes. */
  lemma MinusHalfNeverEscapes(c: Complex, maxIter: nat)
    requires c == Complex(-0.5, 0.0)
    ensures EscapeCount(c, maxIter) == maxIter
  {
    forall k | 0 <= k < maxIter
      ensures Within(Orbit(c, k))
    {
      MinusHalfWithin(c, k);
    }
    BoundedOrbitUsesBudget(c, maxIter);
  }
}
