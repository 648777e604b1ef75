/**
 * The transcendental GLSL built-ins the grading shader calls (`pow`, `log`, `exp`).
 * The model does not compute them: every stage takes them as function values, and the
 * few facts about them that the stage properties need are collected in `Lawful`.
 */
module Kernels {

  datatype Builtins = Builtins(
    pow: (real, real) -> real,
    log: real -> real,
    exp: real -> real)

  /**
   * Facts every real implementation of the built-ins satisfies: powers of a positive
   * base are positive, `x^0 = 1`, `x^1 = x`, a positive power of a number in [0,1]
   * stays in [0,1], `2^y` grows with `y`, and `exp` is positive.
   */
  ghost predicate Lawful(k: Builtins) {
    && (forall x: real, y: real :: 0.0 < x ==> 0.0 < k.pow(x, y))
    && (forall x: real :: 0.0 < x ==> k.pow(x, 0.0) == 1.0)
    && (forall x: real :: 0.0 <= x ==> k.pow(x, 1.0) == x)
    && (forall x: real, y: real ::
          0.0 <= x <= 1.0 && 0.0 < y ==> 0.0 <= k.pow(x, y) <= 1.0)
    && (forall y1: real, y2: real ::
          y1 < y2 ==> k.pow(2.0, y1) < k.pow(2.0, y2))
    && (forall x: real :: 0.0 < k.exp(x))
  }

  /** Built-ins that obey the laws; the witness shows the laws are consistent. */
  type Math = k: Builtins | Lawful(k) witness StandIn()

  /**
   * A stand-in power function that satisfies the laws (it is not `pow`): base 2 grows
   * linearly for non-negative exponents and as `1 / (1 - y)` below zero.
   */
  function StandInPow(x: real, y: real): real {
    if x == 2.0 then (if y >= 0.0 then 1.0 + y else 1.0 / (1.0 - y))
    else if y == 0.0 then 1.0
    else if 0.0 <= x <= 1.0 || y == 1.0 then (if x >= 0.0 then x else 0.0)
    else if x > 0.0 then 1.0
    else 0.0
  }

  function StandIn(): (k: Builtins)
    ensures Lawful(k)
  {
    var k := Builtins(StandInPow, (x: real) => 0.0, (x: real) => 1.0);
    assert forall y1: real, y2: real :: y1 < y2 ==> StandInPow(2.0, y1) < StandInPow(2.0, y2) by {
      forall y1: real, y2: real | y1 < y2 ensures StandInPow(2.0, y1) < StandInPow(2.0, y2) {
        StandInPowGrows(y1, y2);
      }
    }
    k
  }

  lemma StandInPowGrows(y1: real, y2: real)
    requires y1 < y2
    ensures StandInPow(2.0, y1) < StandInPow(2.0, y2)
  {
    if y1 < 0.0 {
      assert 1.0 / (1.0 - y1) < 1.0 by { ReciprocalBelowOne(1.0 - y1); }
      if y2 < 0.0 {
        ReciprocalDecreasing(1.0 - y2, 1.0 - y1);
      }
    }
  }

  lemma ReciprocalBelowOne(a: real)
    requires 1.0 < a
    ensures 1.0 / a < 1.0
  {}

  lemma ReciprocalDecreasing(a: real, b: real)
    requires 0.0 < a < b
    ensures 1.0 / b < 1.0 / a
  {
    assert 1.0 / b * b == 1.0 && 1.0 / a * a == 1.0;
    assert 1.0 / b * a < 1.0 / b * b;
  }
}
