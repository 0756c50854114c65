/** The GLSL building blocks that the emitted shader functions call, over `real`.
    `floor`, `mod`, `min`, `max` and `abs` are exact; `sqrt`, `length`, `atan`,
    `cos` and `sin` are kept abstract in a `Builtins` record that every caller
    passes in, and the few facts the model relies on about them are stated as
    predicates that lemmas and contracts assume explicitly. */
module Glsl {

  datatype Vec2 = Vec2(x: real, y: real)
  datatype Vec3 = Vec3(x: real, y: real, z: real)

  /** GLSL `min(x, y)`. */
  function Min(a: real, b: real): (m: real) { if b < a then b else a }

  /** GLSL `max(x, y)`. */
  function Max(a: real, b: real): (m: real) { if a < b then b else a }

  /** GLSL `abs(x)`. */
  function Abs(x: real): (m: real) { if x < 0.0 then -x else x }

  /** GLSL `dot` on three-component vectors. */
  function Dot3(u: Vec3, v: Vec3): (d: real) { u.x * v.x + u.y * v.y + u.z * v.z }

  /** GLSL `floor`: the greatest integer not above `x`. */
  function Floor(x: real): (k: int)
    ensures k as real <= x < k as real + 1.0
  {
    x.Floor
  }

  /** GLSL `mod(x, y) = x - y * floor(x / y)`, as section 8.3 ("Common
      Functions") of the OpenGL Shading Language specification defines it.
      The result takes the sign of `y`. */
  function Mod(x: real, y: real): (m: real)
    requires y != 0.0
    ensures y > 0.0 ==> 0.0 <= m < y
    ensures y < 0.0 ==> y < m <= 0.0
  {
    var k := Floor(x / y);
    FloorQuotient(x, y, k);
    x - y * k as real
  }

  /** The floor inequalities for `k = floor(x / y)`, multiplied back by `y`. */
  lemma FloorQuotient(x: real, y: real, k: int)
    requires y != 0.0 && k == Floor(x / y)
    ensures y > 0.0 ==> y * k as real <= x < y * k as real + y
    ensures y < 0.0 ==> y * k as real + y < x <= y * k as real
  {
    ScaledFloor(x, y, x / y, k as real);
  }

  /** `FloorQuotient` with the quotient `q = x / y` and its floor `k` as plain values. */
  lemma ScaledFloor(x: real, y: real, q: real, k: real)
    requires y != 0.0 && q == x / y && k <= q < k + 1.0
    ensures y > 0.0 ==> y * k <= x < y * k + y
    ensures y < 0.0 ==> y * k + y < x <= y * k
  {
    var f := q - k;
    SplitQuotient(x, y, k, f);
    ScaleFraction(y, f);
    Bracket(x, y, y * k, y * f);
  }

  /** Linear step: `x = yk + yf` with `yf` between 0 and `y`. */
  lemma Bracket(x: real, y: real, yk: real, yf: real)
    requires x == yk + yf
    requires y > 0.0 ==> 0.0 <= yf < y
    requires y < 0.0 ==> y < yf <= 0.0
    ensures y > 0.0 ==> yk <= x < yk + y
    ensures y < 0.0 ==> yk + y < x <= yk
  {
  }

  /** `x` is `y` times the integer part plus `y` times the fraction of `x / y`. */
  lemma SplitQuotient(x: real, y: real, k: real, f: real)
    requires y != 0.0 && f == x / y - k
    ensures x == y * k + y * f
  {
  }

  /** A fraction in `[0, 1)` scaled by `y` stays between 0 and `y`. */
  lemma ScaleFraction(y: real, f: real)
    requires 0.0 <= f < 1.0
    ensures y > 0.0 ==> 0.0 <= y * f < y
    ensures y < 0.0 ==> y < y * f <= 0.0
  {
  }

  /** The literal `SQRT2` of the shader library (JavaScript's `Math.SQRT2`). */
  const SQRT2: real := 1.4142135623730951

  /** The literal `TAU` of the shader library (`2 * Math.PI`). */
  const TAU: real := 6.283185307179586

  /** The transcendental and irrational built-ins the emitted code calls, left
      uninterpreted: `sqrt(x)`, the two-component `length(vec2(x, y))`,
      `atan(y, x)`, `cos` and `sin`. */
  datatype Builtins = Builtins(
    sqrt: real -> real,
    length: (real, real) -> real,
    atan: (real, real) -> real,
    cos: real -> real,
    sin: real -> real)

  /** The minimal facts about `length`: it is never negative and vanishes at the origin. */
  ghost predicate LengthLaws(g: Builtins)
  {
    && (forall x, y :: g.length(x, y) >= 0.0)
    && g.length(0.0, 0.0) == 0.0
  }

  /** A further fact the Euclidean length has: it is at least the size of
      either component (and hence never negative). */
  ghost predicate LengthDominates(g: Builtins)
  {
    forall x, y :: g.length(x, y) >= Abs(x) && g.length(x, y) >= Abs(y)
  }

  /** `sqrt(0.5)` is the positive square root of one half. */
  ghost predicate SqrtHalfExact(g: Builtins)
  {
    g.sqrt(0.5) > 0.0 && g.sqrt(0.5) * g.sqrt(0.5) == 0.5
  }
}
