/**
 * Time arithmetic of the tracker. Timestamps are JavaScript `Date` values;
 * subtracting two of them gives whole milliseconds, so the model keeps every
 * time as an `int` number of milliseconds.
 */
module Clock {
  /** One hour, `1000 * 60 * 60` in the source. */
  const Hour: int := 1000 * 60 * 60
  /** One day, `1000 * 60 * 60 * 24` in the source. */
  const Day: int := 1000 * 60 * 60 * 24

  /** `Math.ceil(a / b)` computed exactly on integers, for a positive unit `b`. */
  function CeilDiv(a: int, b: int): (q: int)
    requires b > 0
    ensures (q - 1) * b < a <= q * b
  {
    var m := a + b - 1;
    assert m == (m / b) * b + m % b;
    (a + b - 1) / b
  }

  /** The mathematical ceiling of a real number, the meaning of `Math.ceil`. */
  ghost function Ceil(x: real): int
  {
    -((-x).Floor)
  }

  /** A number strictly above `x - 1` and not below `x` is the ceiling of `x`. */
  lemma CeilUnique(x: real, q: int)
    requires (q - 1) as real < x <= q as real
    ensures Ceil(x) == q
  {
    var f := (-x).Floor;
    assert f as real <= -x < f as real + 1.0;
  }

  /** Integer ceiling division agrees with `Math.ceil` of the exact quotient. */
  lemma CeilDivIsCeiling(a: int, b: int)
    requires b > 0
    ensures CeilDiv(a, b) == Ceil(a as real / b as real)
  {
    var q := CeilDiv(a, b);
    var x := a as real / b as real;
    var br := b as real;
    assert x * br == a as real;
    assert ((q - 1) * b) as real == (q - 1) as real * br;
    assert (q * b) as real == q as real * br;
    LessAfterScaling((q - 1) as real, x, br);
    AtMostAfterScaling(x, q as real, br);
    CeilUnique(x, q);
  }

  lemma LessAfterScaling(u: real, v: real, k: real)
    requires k > 0.0 && u * k < v * k
    ensures u < v
  {
  }

  lemma AtMostAfterScaling(u: real, v: real, k: real)
    requires k > 0.0 && u * k <= v * k
    ensures u <= v
  {
  }
}
