/**
 * The opacity fade that hides the digit grid while it is regenerated: each
 * animation frame turns the elapsed time into a progress fraction, eases it,
 * and interpolates from the start opacity to the target opacity.
 */
module Fade {
  import opened Arith

  /** Length of both the fade-out and the fade-in, in milliseconds. */
  const FadeDuration: real := 200.0

  /** `v` lies on the closed segment between `a` and `b`, whichever is larger. */
  predicate Between(v: real, a: real, b: real) {
    (a <= v <= b) || (b <= v <= a)
  }

  /** Fraction of the animation done: elapsed time over duration, capped at 1. */
  function Progress(elapsed: real, duration: real): (p: real)
    requires duration > 0.0
    ensures p <= 1.0
    ensures elapsed >= 0.0 ==> 0.0 <= p
    ensures p == 1.0 <==> elapsed >= duration
    ensures p < 1.0 ==> p * duration == elapsed
  {
    var ratio := elapsed / duration;
    assert ratio * duration == elapsed;
    assert elapsed >= 0.0 ==> ratio >= 0.0 by {
      if elapsed >= 0.0 { DivMonotone(0.0, elapsed, duration); }
    }
    assert ratio >= 1.0 <==> elapsed >= duration by {
      assert duration / duration == 1.0;
      if elapsed >= duration {
        DivMonotone(duration, elapsed, duration);
      } else {
        DivStrictMonotone(elapsed, duration, duration);
      }
    }
    if ratio < 1.0 then ratio else 1.0
  }

  /** Ease-in-out curve: quadratic acceleration up to the midpoint, mirrored deceleration after it. */
  function Ease(p: real): (e: real)
    ensures 0.0 <= p <= 1.0 ==> 0.0 <= e <= 1.0
    ensures p == 0.0 ==> e == 0.0
    ensures p == 1.0 ==> e == 1.0
  {
    if p < 0.5 then
      assert 0.0 <= p ==> p * p <= 0.5 * p by {
        if 0.0 <= p { ScaleLe(p, 0.5, p); }
      }
      2.0 * p * p
    else
      var d := -2.0 * p + 2.0;
      assert 0.0 <= d <= 1.0 ==> d * d <= 1.0 by {
        if 0.0 <= d <= 1.0 { ScaleLe(d, 1.0, d); }
      }
      1.0 - d * d / 2.0
  }

  /** The curve is point-symmetric about (1/2, 1/2): easing in mirrors easing out. */
  lemma EaseSymmetric(p: real)
    requires 0.0 <= p <= 1.0
    ensures Ease(1.0 - p) == 1.0 - Ease(p)
  {
    if p < 0.5 {
      assert -2.0 * (1.0 - p) + 2.0 == 2.0 * p;
      assert (2.0 * p) * (2.0 * p) / 2.0 == 2.0 * p * p;
    } else if p > 0.5 {
      var q := 1.0 - p;
      assert -2.0 * p + 2.0 == 2.0 * q;
      assert (2.0 * q) * (2.0 * q) / 2.0 == 2.0 * q * q;
    }
  }

  /** The first half of the curve stays at or below 1/2 and the second half at or above it. */
  lemma EaseHalves(p: real)
    requires 0.0 <= p <= 1.0
    ensures p < 0.5 ==> Ease(p) <= 0.5
    ensures p >= 0.5 ==> Ease(p) >= 0.5
  {
    if p < 0.5 {
      ScaleLe(p, 0.5, p);
      ScaleLe(p, 0.5, 0.5);
    } else {
      var d := -2.0 * p + 2.0;
      ScaleLe(d, 1.0, d);
      assert d * d <= 1.0;
    }
  }

  /** The eased value never moves backwards as progress grows. */
  lemma EaseMonotone(p: real, q: real)
    requires 0.0 <= p <= q <= 1.0
    ensures Ease(p) <= Ease(q)
  {
    if q < 0.5 {
      SquareMonotone(p, q);
      assert Ease(p) == 2.0 * (p * p) && Ease(q) == 2.0 * (q * q);
    } else if p >= 0.5 {
      var dp, dq := -2.0 * p + 2.0, -2.0 * q + 2.0;
      SquareMonotone(dq, dp);
      assert Ease(p) == 1.0 - (dp * dp) / 2.0 && Ease(q) == 1.0 - (dq * dq) / 2.0;
    } else {
      EaseHalves(p);
      EaseHalves(q);
    }
  }

  /** Moving from `s` by a fraction in [0, 1] of the step `d` to `g` stays between `s` and `g`. */
  lemma FractionOfStep(s: real, g: real, d: real, t: real)
    requires s + d == g && 0.0 <= t <= 1.0
    ensures Between(s + d * t, s, g)
  {
    if d >= 0.0 {
      FractionOf(d, t);
    } else {
      FractionOf(-d, t);
      assert (-d) * t == -(d * t);
    }
  }

  /** Linear interpolation from `start` towards `target` by the fraction `t`. */
  function Interpolate(start: real, target: real, t: real): (v: real)
    ensures 0.0 <= t <= 1.0 ==> Between(v, start, target)
    ensures t == 0.0 ==> v == start
    ensures t == 1.0 ==> v == target
  {
    assert 0.0 <= t <= 1.0 ==> Between(start + (target - start) * t, start, target) by {
      if 0.0 <= t <= 1.0 {
        FractionOfStep(start, target, target - start, t);
      }
    }
    start + (target - start) * t
  }

  /**
   * Opacity an animation frame sets `elapsed` milliseconds after the animation
   * started: the eased interpolation while progress is below 1, and exactly the
   * target from then on.
   */
  function OpacityAt(start: real, target: real, duration: real, elapsed: real): (o: real)
    requires duration > 0.0
    ensures elapsed >= duration ==> o == target
    ensures elapsed >= 0.0 ==> Between(o, start, target)
    ensures elapsed == 0.0 ==> o == start
  {
    var p := Progress(elapsed, duration);
    if p < 1.0 then Interpolate(start, target, Ease(p)) else target
  }

  /**
   * With real numbers the eased curve itself already ends on the target, so the
   * explicit snap at completion agrees with the curve; it exists to remove
   * floating-point drift, which this model does not have.
   */
  lemma CurveEndsOnTarget(start: real, target: real, duration: real)
    requires duration > 0.0
    ensures Interpolate(start, target, Ease(Progress(duration, duration))) == target
    ensures OpacityAt(start, target, duration, duration) == target
  {
  }

  /** A larger fraction of the step `d` from `s` to `g` lands no farther from `g`. */
  lemma LargerFractionCloser(s: real, g: real, d: real, t1: real, t2: real)
    requires s + d == g && 0.0 <= t1 <= t2 <= 1.0
    ensures Between(s + d * t2, s + d * t1, g)
  {
    if d >= 0.0 {
      ScaleLe(t1, t2, d);
      FractionOf(d, t2);
      assert s + d * t1 <= s + d * t2 <= g;
    } else {
      var e := -d;
      ScaleLe(t1, t2, e);
      FractionOf(e, t2);
      assert e * t1 == -(d * t1) && e * t2 == -(d * t2);
      assert g <= s + d * t2 <= s + d * t1;
    }
  }

  /** A larger fraction lands no farther from the target. */
  lemma InterpolateApproaches(start: real, target: real, t1: real, t2: real)
    requires 0.0 <= t1 <= t2 <= 1.0
    ensures Between(Interpolate(start, target, t2), Interpolate(start, target, t1), target)
  {
    LargerFractionCloser(start, target, target - start, t1, t2);
  }

  /**
   * Frames taken later are never farther from the target: the opacity moves
   * monotonically from the start value to the target.
   */
  lemma OpacityApproachesTarget(start: real, target: real, duration: real, e1: real, e2: real)
    requires duration > 0.0 && 0.0 <= e1 <= e2
    ensures Between(OpacityAt(start, target, duration, e2), OpacityAt(start, target, duration, e1), target)
  {
    var p1, p2 := Progress(e1, duration), Progress(e2, duration);
    if p2 < 1.0 {
      assert p1 <= p2 by {
        DivMonotone(e1, e2, duration);
      }
      EaseMonotone(p1, p2);
      InterpolateApproaches(start, target, Ease(p1), Ease(p2));
    }
  }

  /**
   * A fade of the default length is exactly halfway between its start and its
   * target after half of it, 100 milliseconds: the eased curve passes through
   * its midpoint there.
   */
  lemma DefaultFadeHalfway(start: real, target: real)
    ensures OpacityAt(start, target, FadeDuration, 100.0) == (start + target) / 2.0
  {
    assert Progress(100.0, FadeDuration) == 0.5;
    assert Ease(0.5) == 0.5;
  }
}
