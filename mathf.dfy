/**
 * The two pieces of Unity's Mathf library that the visibility animation
 * relies on, over exact reals (no float rounding).
 */
module Mathf {

  /** x lies on the closed segment between a and b, whichever way round they are. */
  predicate Between(x: real, a: real, b: real) {
    (a <= x <= b) || (b <= x <= a)
  }

  /** Distance between two reals. */
  function Dist(x: real, y: real): real {
    if x >= y then x - y else y - x
  }

  /** Mathf.Clamp01: the point of [0, 1] nearest to value. */
  function Clamp01(value: real): (r: real)
    ensures 0.0 <= r <= 1.0
    ensures 0.0 <= value <= 1.0 ==> r == value
    ensures value <= 0.0 ==> r == 0.0
    ensures value >= 1.0 ==> r == 1.0
  {
    if value < 0.0 then 0.0 else if value > 1.0 then 1.0 else value
  }

  /** Mathf.Clamp01 never reverses the order of its arguments. */
  lemma Clamp01Monotone(t1: real, t2: real)
    requires t1 <= t2
    ensures Clamp01(t1) <= Clamp01(t2)
  {
  }

  /**
   * Mathf.Lerp(a, b, t): a + (b - a) * Clamp01(t). Because the parameter is
   * clamped, the result never leaves the segment between a and b, and it is
   * exactly a at or before t = 0 and exactly b at or after t = 1.
   */
  function Lerp(a: real, b: real, t: real): (r: real)
    ensures Between(r, a, b)
    ensures t <= 0.0 ==> r == a
    ensures t >= 1.0 ==> r == b
  {
    InterpolateWithin(a, b, Clamp01(t));
    a + (b - a) * Clamp01(t)
  }

  /** Interpolating with a factor in [0, 1] stays between the end points. */
  lemma InterpolateWithin(a: real, b: real, c: real)
    requires 0.0 <= c <= 1.0
    ensures Between(a + (b - a) * c, a, b)
    ensures c == 0.0 ==> a + (b - a) * c == a
    ensures c == 1.0 ==> a + (b - a) * c == b
  {
    var d := b - a;
    ScaleWithin(d, c);
    var m := d * c;
    assert 0.0 <= m <= d || d <= m <= 0.0;
    assert a <= a + m <= b || b <= a + m <= a;
    assert a + m == a + (b - a) * c;
  }

  /** Scaling d by a factor in [0, 1] lands between 0 and d. */
  lemma ScaleWithin(d: real, c: real)
    requires 0.0 <= c <= 1.0
    ensures Between(d * c, 0.0, d)
    ensures c == 0.0 ==> d * c == 0.0
    ensures c == 1.0 ==> d * c == d
  {
  }

  /** Shrinking a non-negative factor shrinks the magnitude of a product. */
  lemma RemainderShrinks(d: real, e1: real, e2: real)
    requires 0.0 <= e2 <= e1
    ensures Dist(d * e2, 0.0) <= Dist(d * e1, 0.0)
  {
    if d >= 0.0 {
      assert d * (e1 - e2) >= 0.0;
    } else {
      assert (-d) * (e1 - e2) >= 0.0;
    }
  }

  /**
   * A later parameter never moves Lerp's result further from b: while the
   * parameter grows, the interpolated value approaches its target.
   */
  lemma LerpApproaches(a: real, b: real, t1: real, t2: real)
    requires t1 <= t2
    ensures Dist(Lerp(a, b, t2), b) <= Dist(Lerp(a, b, t1), b)
  {
    var c1, c2 := Clamp01(t1), Clamp01(t2);
    Clamp01Monotone(t1, t2);
    var d := b - a;
    // b - Lerp(a, b, t) == d * (1 - Clamp01(t)), and 1 - c2 <= 1 - c1
    RemainderShrinks(d, 1.0 - c1, 1.0 - c2);
    assert b - Lerp(a, b, t1) == d * (1.0 - c1);
    assert b - Lerp(a, b, t2) == d * (1.0 - c2);
  }
}
