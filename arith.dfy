/** Facts about real arithmetic that the solver does not find unaided: scaling inequalities, rounding, division. */
module Arith {

  /** JavaScript's `Math.ceil`: the least integer not below `x`. */
  function Ceil(x: real): (r: int)
    ensures r as real - 1.0 < x <= r as real
  {
    -((-x).Floor)
  }

  lemma CeilMonotone(x: real, y: real)
    requires x <= y
    ensures Ceil(x) <= Ceil(y)
  {
  }

  /** Dividing a non-negative amount by a larger divisor gives a smaller quotient. */
  lemma DivAntitone(x: real, c1: real, c2: real)
    requires x >= 0.0 && 0.0 < c1 <= c2
    ensures x / c2 <= x / c1
  {
    assert x / c2 * c2 == x;
    assert x / c1 * c1 == x;
    assert x / c2 * c1 <= x / c2 * c2;
  }

  lemma DivMonotone(x1: real, x2: real, c: real)
    requires x1 <= x2 && c > 0.0
    ensures x1 / c <= x2 / c
  {
    assert x1 / c * c == x1;
    assert x2 / c * c == x2;
  }

  lemma DivStrictMonotone(x1: real, x2: real, c: real)
    requires x1 < x2 && c > 0.0
    ensures x1 / c < x2 / c
  {
    assert x1 / c * c == x1;
    assert x2 / c * c == x2;
    assert (x2 / c - x1 / c) * c == x2 - x1;
  }

  /** Scaling both sides by a non-negative factor keeps an inequality. */
  lemma ScaleLe(a: real, b: real, c: real)
    requires a <= b && c >= 0.0
    ensures a * c <= b * c && c * a <= c * b
  {
    assert (b - a) * c == b * c - a * c;
  }

  /** Squaring is monotone on non-negative numbers. */
  lemma SquareMonotone(a: real, b: real)
    requires 0.0 <= a <= b
    ensures a * a <= b * b
  {
    ScaleLe(a, b, a);
    ScaleLe(a, b, b);
  }

  /** Squaring is strictly monotone on non-negative numbers. */
  lemma SquareStrictlyMonotone(a: real, b: real)
    requires 0.0 <= a < b
    ensures a * a < b * b
  {
    ScaleLe(a, b, a);
    ScaleLt(a, b, b);
    calc {
      a * a;
      <= a * b;
      < b * b;
    }
  }

  /** On non-negative numbers, comparing squares is comparing the numbers. */
  lemma SquareLeIff(s: real, t: real)
    requires s >= 0.0 && t >= 0.0
    ensures s * s <= t * t <==> s <= t
  {
    if s <= t {
      SquareMonotone(s, t);
    } else {
      SquareStrictlyMonotone(t, s);
    }
  }

  /** A fraction in [0, 1] of a non-negative amount lies between 0 and that amount. */
  lemma FractionOf(d: real, t: real)
    requires d >= 0.0 && 0.0 <= t <= 1.0
    ensures 0.0 <= d * t
    ensures d * t <= d
  {
    assert (1.0 - t) * d >= 0.0;
  }

  /** Scaling both sides by a positive factor keeps a strict inequality. */
  lemma ScaleLt(a: real, b: real, c: real)
    requires a < b && c > 0.0
    ensures a * c < b * c && c * a < c * b
  {
    assert (b - a) * c > 0.0;
    assert (b - a) * c == b * c - a * c;
  }

  /** Rounding `x / c` up and scaling back by `c` covers `x`, and one cell less does not. */
  lemma CeilDivCovers(x: real, c: real)
    requires c > 0.0
    ensures Ceil(x / c) as real * c >= x
    ensures (Ceil(x / c) - 1) as real * c < x
  {
    var q := x / c;
    var n := Ceil(q);
    assert q * c == x;
    assert n as real * c >= x by { ScaleLe(q, n as real, c); }
    assert (n - 1) as real * c < x by { ScaleLt((n - 1) as real, q, c); }
  }

  /** Splitting an offset into whole cells: the cell index whose span holds `d`. */
  lemma FloorDivBounds(d: real, c: real)
    requires c > 0.0
    ensures (d / c).Floor as real * c <= d < ((d / c).Floor + 1) as real * c
  {
    var q := d / c;
    var k := q.Floor;
    assert q * c == d;
    assert k as real * c <= d by { ScaleLe(k as real, q, c); }
    assert d < (k + 1) as real * c by {
      ScaleLt(q, (k + 1) as real, c);
      assert q * c < (k + 1) as real * c;
    }
  }
}
