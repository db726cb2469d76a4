/** The animation clock of `draw`: the eased fraction of the current swap
    that has elapsed. */
module Easing {

  /** `Math.pow(z, n)` for a natural exponent. */
  function Pow(z: real, n: nat): real
  {
    if n == 0 then 1.0 else z * Pow(z, n - 1)
  }

  /** A factor in [0, 1] shrinks a non-negative number, and keeps it positive. */
  lemma ScaleDown(a: real, b: real)
    requires 0.0 <= a <= 1.0 && 0.0 <= b
    ensures 0.0 <= a * b <= b
    ensures a > 0.0 && b > 0.0 ==> a * b > 0.0
  {
    assert b - a * b == (1.0 - a) * b;
  }

  /** Multiplying by a non-negative number keeps the order of its factors. */
  lemma MulMonoReal(a: real, b: real, c: real)
    requires 0.0 <= a <= b && 0.0 <= c
    ensures a * c <= b * c
  {
    assert b * c - a * c == (b - a) * c;
  }

  /** Powers of a number in [0, 1] stay in [0, 1], and a positive power of
      it is positive exactly when the number is. */
  lemma {:induction false} PowBounds(z: real, n: nat)
    requires 0.0 <= z <= 1.0
    ensures 0.0 <= Pow(z, n) <= 1.0
    ensures n > 0 ==> (Pow(z, n) > 0.0 <==> z > 0.0)
  {
    if n > 0 {
      PowBounds(z, n - 1);
      ScaleDown(z, Pow(z, n - 1));
      if z == 0.0 {
        assert Pow(z, n) == 0.0 * Pow(z, n - 1);
      }
    }
  }

  /** Powers keep the order of non-negative bases. */
  lemma {:induction false} PowMono(a: real, b: real, n: nat)
    requires 0.0 <= a <= b
    ensures 0.0 <= Pow(a, n) <= Pow(b, n)
  {
    if n > 0 {
      PowMono(a, b, n - 1);
      MulMonoReal(a, b, Pow(a, n - 1));
      MulMonoReal(Pow(a, n - 1), Pow(b, n - 1), b);
      assert Pow(a, n - 1) * b == b * Pow(a, n - 1);
      assert Pow(b, n - 1) * b == b * Pow(b, n - 1);
    }
  }

  /** `easeInOut(x)`: quartic ease-in up to the midpoint, mirrored ease-out
      after it. */
  function EaseInOut(x: real): (e: real)
    ensures x == 0.0 ==> e == 0.0
    ensures x == 0.5 ==> e == 0.5
    ensures x == 1.0 ==> e == 1.0
  {
    if x < 0.5 then 8.0 * Pow(x, 4)
    else
      Pow4(-2.0 * x + 2.0);
      1.0 - Pow(-2.0 * x + 2.0, 4) / 2.0
  }

  /** A fourth power is the base multiplied in four times. */
  lemma Pow4(z: real)
    ensures Pow(z, 4) == z * (z * (z * z))
  {
    calc {
      Pow(z, 4);
      z * Pow(z, 3);
      z * (z * Pow(z, 2));
      z * (z * (z * Pow(z, 1)));
      z * (z * (z * (z * Pow(z, 0))));
    }
  }

  /** Doubling the base multiplies a fourth power by 16. */
  lemma PowDouble(z: real)
    ensures Pow(2.0 * z, 4) == 16.0 * Pow(z, 4)
  {
    Pow4(z);
    Pow4(2.0 * z);
  }

  /** The ease-out half mirrors the ease-in half: the easing is point
      symmetric about (0.5, 0.5). */
  lemma EaseInOutMirror(x: real)
    ensures EaseInOut(1.0 - x) == 1.0 - EaseInOut(x)
  {
    if x < 0.5 {
      PowDouble(x);
      assert -2.0 * (1.0 - x) + 2.0 == 2.0 * x;
    } else if x > 0.5 {
      PowDouble(1.0 - x);
      assert -2.0 * x + 2.0 == 2.0 * (1.0 - x);
    }
  }

  /** On [0, 1] the easing stays in [0, 1], reaches 1 at 1, and is positive
      everywhere but at 0: a swap is at rest only at the start of its period. */
  lemma EaseInOutBounds(x: real)
    requires 0.0 <= x <= 1.0
    ensures 0.0 <= EaseInOut(x) <= 1.0
    ensures EaseInOut(x) > 0.0 <==> x > 0.0
    ensures x == 1.0 ==> EaseInOut(x) == 1.0
  {
    if x < 0.5 {
      PowBounds(x, 4);
      PowMono(x, 0.5, 4);
      assert Pow(0.5, 4) == 0.0625;
    } else {
      PowBounds(-2.0 * x + 2.0, 4);
      if x == 1.0 {
        assert Pow(0.0, 4) == 0.0;
      }
    }
  }

  /** `percent` in `draw`: the eased position of the frame counter within
      the current period of `duration` frames. It lies in [0, 1] and is 0
      exactly on the frames that start a period. */
  function FramePercent(frameCount: nat, duration: nat): (p: real)
    requires duration >= 1
    ensures 0.0 <= p <= 1.0
    ensures p == 0.0 <==> frameCount % duration == 0
  {
    var k := frameCount % duration;
    var x := k as real / duration as real;
    assert 0.0 <= x < 1.0 by {
      assert k as real < duration as real;
    }
    assert x > 0.0 <==> k != 0;
    EaseInOutBounds(x);
    EaseInOut(x)
  }
}
