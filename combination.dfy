/** The object combination operators. Each merges two distances `a` and `b`
    (to two objects) into one, shaping the seam with a radius, a step count or
    a depth and thickness. The plain operators are `min(a, b)` for union,
    `max(a, b)` for intersection and `max(a, -b)` for difference; every shaped
    union, intersection and difference operator is bounded by its plain
    counterpart, and most coincide with it away from the seam; engrave, groove
    and tongue are bounded by `a`. */
module Combination {
  import opened Glsl
  import opened Domain

  // ---------------------------------------------------------------------------
  // Chamfer: a 45-degree chamfer, the diagonal of a square of size `r`
  // ---------------------------------------------------------------------------

  /** `fOpUnionChamfer`: `min(min(a, b), (a - r + b) * sqrt(0.5))`. */
  function UnionChamfer(a: real, b: real, r: real, g: Builtins): (d: real)
    ensures d <= Min(a, b)
    ensures d == Min(a, b) || d == (a - r + b) * g.sqrt(0.5)
  {
    Min(Min(a, b), (a - r + b) * g.sqrt(0.5))
  }

  /** `fOpIntersectionChamfer`: `max(max(a, b), (a + r + b) * sqrt(0.5))`. */
  function IntersectionChamfer(a: real, b: real, r: real, g: Builtins): (d: real)
    ensures d >= Max(a, b)
    ensures d == Max(a, b) || d == (a + r + b) * g.sqrt(0.5)
  {
    Max(Max(a, b), (a + r + b) * g.sqrt(0.5))
  }

  /** `fOpDifferenceChamfer`: the intersection with the complement of `b`. */
  function DifferenceChamfer(a: real, b: real, r: real, g: Builtins): (d: real)
    ensures d >= Max(a, -b)
  {
    IntersectionChamfer(a, -b, r, g)
  }

  /** Intersection is union on the negated distances, negated. */
  lemma IntersectionChamferIsDual(a: real, b: real, r: real, g: Builtins)
    ensures IntersectionChamfer(a, b, r, g) == -UnionChamfer(-a, -b, r, g)
  {
  }

  /** Difference is union of `-a` and `b`, negated. */
  lemma DifferenceChamferIsDual(a: real, b: real, r: real, g: Builtins)
    ensures DifferenceChamfer(a, b, r, g) == -UnionChamfer(-a, b, r, g)
  {
  }

  /** A zero radius does not give back `min(a, b)`: inside both objects the
      chamfer term `(a + b) * sqrt(0.5)` is still lower, as at `a = b = -1`. */
  lemma ChamferZeroRadiusBelowMin(g: Builtins)
    requires SqrtHalfExact(g)
    ensures UnionChamfer(-1.0, -1.0, 0.0, g) < Min(-1.0, -1.0)
    ensures UnionChamfer(-1.0, -1.0, 0.0, g) == -2.0 * g.sqrt(0.5)
  {
  }

  /** Dually, `fOpIntersectionChamfer(a, b, 0)` is not `max(a, b)` for
      positive inputs: at `a = b = 1` it is `2 * sqrt(0.5)`. */
  lemma IntersectionChamferZeroRadiusAboveMax(g: Builtins)
    requires SqrtHalfExact(g)
    ensures IntersectionChamfer(1.0, 1.0, 0.0, g) > Max(1.0, 1.0)
    ensures IntersectionChamfer(1.0, 1.0, 0.0, g) == 2.0 * g.sqrt(0.5)
  {
  }

  // ---------------------------------------------------------------------------
  // Round: a quarter circle of radius `r` joins the two objects
  // ---------------------------------------------------------------------------

  /** `fOpUnionRound`: `max(r, min(a, b)) - length(max(vec2(r - a, r - b), 0))`. */
  function UnionRound(a: real, b: real, r: real, g: Builtins): (d: real)
    ensures g.length(0.0, 0.0) == 0.0 && a >= r && b >= r ==> d == Min(a, b)
    ensures LengthDominates(g) ==> d <= Min(a, b)
  {
    var u := Vec2(Max(r - a, 0.0), Max(r - b, 0.0));
    Max(r, Min(a, b)) - g.length(u.x, u.y)
  }

  /** `fOpIntersectionRound`: `min(-r, max(a, b)) + length(max(vec2(r + a, r + b), 0))`. */
  function IntersectionRound(a: real, b: real, r: real, g: Builtins): (d: real)
    ensures g.length(0.0, 0.0) == 0.0 && a <= -r && b <= -r ==> d == Max(a, b)
    ensures LengthDominates(g) ==> d >= Max(a, b)
  {
    var u := Vec2(Max(r + a, 0.0), Max(r + b, 0.0));
    Min(-r, Max(a, b)) + g.length(u.x, u.y)
  }

  /** `fOpDifferenceRound`: the intersection with the complement of `b`. */
  function DifferenceRound(a: real, b: real, r: real, g: Builtins): (d: real)
    ensures g.length(0.0, 0.0) == 0.0 && a <= -r && -b <= -r ==> d == Max(a, -b)
    ensures LengthDominates(g) ==> d >= Max(a, -b)
  {
    IntersectionRound(a, -b, r, g)
  }

  /** Round intersection is round union on the negated distances, negated. */
  lemma IntersectionRoundIsDual(a: real, b: real, r: real, g: Builtins)
    ensures IntersectionRound(a, b, r, g) == -UnionRound(-a, -b, r, g)
  {
  }

  // ---------------------------------------------------------------------------
  // Columns: `n - 1` circular columns along the 45-degree seam
  // ---------------------------------------------------------------------------

  /** The divisions of the column operators are defined: the radius is not 0
      (so the column period `2 * columnRadius` is not 0 either) and the
      denominator `(n - 1) * 2 + SQRT2` of the column radius is not 0. */
  predicate ColumnsDefined(r: real, n: real)
  {
    r != 0.0 && (n - 1.0) * 2.0 + SQRT2 != 0.0
  }

  /** The column radius `r * SQRT2 / ((n - 1) * 2 + SQRT2)`. */
  function ColumnRadius(r: real, n: real): (cr: real)
    requires ColumnsDefined(r, n)
    ensures cr != 0.0
    ensures cr * ((n - 1.0) * 2.0 + SQRT2) == r * SQRT2
  {
    var den := (n - 1.0) * 2.0 + SQRT2;
    assert (r * SQRT2 / den) * den == r * SQRT2;
    r * SQRT2 / den
  }

  /** What `fOpUnionColumns` computes: inside the band `a < r && b < r`, the
      distances turned by 45 degrees, moved onto the seam, repeated along it
      with period `2 * columnRadius`, and a circle of the column radius placed
      in every cell, then merged with `a` and `b`; outside the band, `min(a, b)`. */
  function UnionColumnsValue(a: real, b: real, r: real, n: real, g: Builtins): (d: real)
    requires a < r && b < r ==> ColumnsDefined(r, n)
  {
    if a < r && b < r then
      var cr := ColumnRadius(r, n);
      var t := Rot45(Vec2(a, b), g.sqrt(0.5));
      var x := t.x - SQRT2 / 2.0 * r + cr * SQRT2;
      var y := if Mod(n, 2.0) == 1.0 then t.y + cr else t.y;
      Min(Min(Min(g.length(x, Wrap(y, cr * 2.0)) - cr, x), a), b)
    else
      Min(a, b)
  }

  /** What `fOpDifferenceColumns` computes, on `-a` and `b`: the column
      pattern carved out of the seam of `a` with the complement of `b`. The
      x shift by `-columnRadius * SQRT2 / 2` is the shader's own (marked
      there as still to do), kept as written. */
  function DifferenceColumnsValue(a: real, b: real, r: real, n: real, g: Builtins): (d: real)
    requires -a < r && b < r ==> ColumnsDefined(r, n)
  {
    if -a < r && b < r then
      var cr := ColumnRadius(r, n);
      var t := Rot45(Vec2(-a, b), g.sqrt(0.5));
      var x := t.x - SQRT2 / 2.0 * r + -cr * SQRT2 / 2.0;
      var y := if Mod(n, 2.0) == 1.0 then t.y + cr + cr else t.y + cr;
      -Min(Min(Max(-g.length(x, Wrap(y, cr * 2.0)) + cr, x), -a), b)
    else
      -Min(-a, b)
  }

  /** `fOpUnionColumns`, step by step on a local point `p`. */
  method UnionColumns(a: real, b: real, r: real, n: real, g: Builtins) returns (d: real)
    requires a < r && b < r ==> ColumnsDefined(r, n)
    ensures d == UnionColumnsValue(a, b, r, n, g)
    ensures d <= Min(a, b)
    ensures !(a < r && b < r) ==> d == Min(a, b)
  {
    if a < r && b < r {
      var p := Vec2(a, b);
      var columnRadius := r * SQRT2 / ((n - 1.0) * 2.0 + SQRT2);
      assert columnRadius == ColumnRadius(r, n);
      p := PR45(p, g);
      p := Vec2(p.x - SQRT2 / 2.0 * r, p.y);
      p := Vec2(p.x + columnRadius * SQRT2, p.y);
      if Mod(n, 2.0) == 1.0 {
        p := Vec2(p.x, p.y + columnRadius);
      }
      var y, _ := PMod1(p.y, columnRadius * 2.0);
      p := Vec2(p.x, y);
      var result := g.length(p.x, p.y) - columnRadius;
      result := Min(result, p.x);
      result := Min(result, a);
      d := Min(result, b);
    } else {
      d := Min(a, b);
    }
  }

  /** `fOpDifferenceColumns`, step by step; the shader overwrites `a` with `-a`. */
  method DifferenceColumns(a: real, b: real, r: real, n: real, g: Builtins) returns (d: real)
    requires -a < r && b < r ==> ColumnsDefined(r, n)
    ensures d == DifferenceColumnsValue(a, b, r, n, g)
    ensures d >= Max(a, -b)
    ensures !(-a < r && b < r) ==> d == Max(a, -b)
  {
    var na := -a;
    var m := Min(na, b);
    if na < r && b < r {
      var p := Vec2(na, b);
      var columnRadius := r * SQRT2 / ((n - 1.0) * 2.0 + SQRT2);
      assert columnRadius == ColumnRadius(r, n);
      p := PR45(p, g);
      p := Vec2(p.x, p.y + columnRadius);
      p := Vec2(p.x - SQRT2 / 2.0 * r, p.y);
      p := Vec2(p.x + -columnRadius * SQRT2 / 2.0, p.y);
      if Mod(n, 2.0) == 1.0 {
        p := Vec2(p.x, p.y + columnRadius);
      }
      var y, _ := PMod1(p.y, columnRadius * 2.0);
      p := Vec2(p.x, y);
      var result := -g.length(p.x, p.y) + columnRadius;
      result := Max(result, p.x);
      result := Min(result, na);
      d := -Min(result, b);
    } else {
      d := -m;
    }
  }

  /** `fOpIntersectionColumns`: the difference with the complement of `b`. */
  method IntersectionColumns(a: real, b: real, r: real, n: real, g: Builtins) returns (d: real)
    requires -a < r && -b < r ==> ColumnsDefined(r, n)
    ensures d == DifferenceColumnsValue(a, -b, r, n, g)
    ensures d >= Max(a, b)
    ensures !(-a < r && -b < r) ==> d == Max(a, b)
  {
    d := DifferenceColumns(a, -b, r, n, g);
  }

  // ---------------------------------------------------------------------------
  // Stairs: `n - 1` steps of a staircase of total size `r`
  // ---------------------------------------------------------------------------

  /** `fOpUnionStairs`: with step `s = r / n` and `u = b - r`,
      `min(min(a, b), 0.5 * (u + a + abs(mod(u - a + s, 2 * s) - s)))`. It
      never exceeds `min(a, b)`, lies at most `r / 2` below it, and equals it
      where the distances differ by at least `r`. */
  function UnionStairs(a: real, b: real, r: real, n: real): (d: real)
    requires r != 0.0 && n != 0.0
    ensures d <= Min(a, b)
    ensures r >= 0.0 ==> Min(a, b) - r / 2.0 <= d
    ensures Abs(a - b) >= r ==> d == Min(a, b)
  {
    var s := r / n;
    var u := b - r;
    assert s != 0.0;
    Min(Min(a, b), 0.5 * (u + a + Abs(Mod(u - a + s, 2.0 * s) - s)))
  }

  /** `fOpIntersectionStairs`: union stairs on the negated distances, negated. */
  function IntersectionStairs(a: real, b: real, r: real, n: real): (d: real)
    requires r != 0.0 && n != 0.0
    ensures d >= Max(a, b)
    ensures r >= 0.0 ==> d <= Max(a, b) + r / 2.0
    ensures Abs(a - b) >= r ==> d == Max(a, b)
  {
    -UnionStairs(-a, -b, r, n)
  }

  /** `fOpDifferenceStairs`: union stairs of `-a` and `b`, negated. */
  function DifferenceStairs(a: real, b: real, r: real, n: real): (d: real)
    requires r != 0.0 && n != 0.0
    ensures d >= Max(a, -b)
    ensures r >= 0.0 ==> d <= Max(a, -b) + r / 2.0
    ensures Abs(a + b) >= r ==> d == Max(a, -b)
  {
    -UnionStairs(-a, b, r, n)
  }

  /** Even where the two distances agree the staircase can cut below them:
      with `r = 0.4` and four steps, `a = b = 1` gives `0.8`, not `1`. */
  lemma StairsBelowMinAtTie()
    ensures UnionStairs(1.0, 1.0, 0.4, 4.0) == 0.8
  {
  }

  // ---------------------------------------------------------------------------
  // Soft union, pipe, engrave, groove and tongue
  // ---------------------------------------------------------------------------

  /** `fOpUnionSoft`: with `e = max(r - abs(a - b), 0)`,
      `min(a, b) - e * e * 0.25 / r`. For a positive radius it lies between
      `min(a, b) - r / 4` and `min(a, b)`, and equals `min(a, b)` where the
      distances differ by at least `r`; a negative radius leaves `min(a, b)`. */
  function UnionSoft(a: real, b: real, r: real): (d: real)
    requires r != 0.0
    ensures r > 0.0 ==> Min(a, b) - r / 4.0 <= d <= Min(a, b)
    ensures Abs(a - b) >= r ==> d == Min(a, b)
    ensures r < 0.0 ==> d == Min(a, b)
  {
    var e := Max(r - Abs(a - b), 0.0);
    SoftBlend(e, r);
    Min(a, b) - e * e * 0.25 / r
  }

  /** The blend term `e * e * 0.25 / r` lies in `[0, r / 4]` for `0 <= e <= r`. */
  lemma SoftBlend(e: real, r: real)
    ensures 0.0 <= e <= r && r > 0.0 ==> 0.0 <= e * e * 0.25 / r <= r / 4.0
  {
    if 0.0 <= e <= r && r > 0.0 {
      SoftBlendBounded(e, r);
    }
  }

  lemma SoftBlendBounded(e: real, r: real)
    requires 0.0 <= e <= r && r > 0.0
    ensures 0.0 <= e * e * 0.25 / r <= r / 4.0
  {
    assert e * e <= e * r;
    assert e * r <= r * r;
    var t := e * e * 0.25;
    var q := t / r;
    assert r * q == t;
    NonNegativeFactor(r, q);
    assert r * (r / 4.0 - q) == r * r * 0.25 - t;
    NonNegativeFactor(r, r / 4.0 - q);
  }

  /** A product with a positive left factor is non-negative only if the right factor is. */
  lemma NonNegativeFactor(a: real, b: real)
    requires a > 0.0
    ensures a * b >= 0.0 ==> b >= 0.0
  {
  }

  /** `fOpPipe`: `length(vec2(a, b)) - r`, a pipe of radius `r` along the
      seam; on the seam itself (`a = b = 0`) it is `-r`, never below. */
  function Pipe(a: real, b: real, r: real, g: Builtins): (d: real)
    ensures LengthLaws(g) ==> d >= -r
    ensures LengthLaws(g) && a == 0.0 && b == 0.0 ==> d == -r
    ensures LengthDominates(g) ==> d >= Abs(a) - r && d >= Abs(b) - r
  {
    g.length(a, b) - r
  }

  /** `fOpEngrave`: `max(a, (a + r - abs(b)) * sqrt(0.5))`, a v-shaped cut
      into the first object that leaves it unchanged outside it once
      `abs(b) >= a + r`. */
  function Engrave(a: real, b: real, r: real, g: Builtins): (d: real)
    ensures d >= a
    ensures SqrtHalfExact(g) && a >= 0.0 && Abs(b) >= a + r ==> d == a
  {
    var v := a + r - Abs(b);
    NonPositiveScaled(v, g.sqrt(0.5));
    Max(a, v * g.sqrt(0.5))
  }

  /** A non-positive value scaled by a positive factor stays non-positive. */
  lemma NonPositiveScaled(v: real, c: real)
    ensures v <= 0.0 && c > 0.0 ==> v * c <= 0.0
  {
  }

  /** `fOpGroove`: `max(a, min(a + depth, thickness - abs(b)))`, a groove of
      the given depth and half-width cut into the first object. */
  function Groove(a: real, b: real, depth: real, thickness: real): (d: real)
    ensures d >= a
    ensures depth >= 0.0 ==> d <= a + depth
    ensures thickness - Abs(b) <= a ==> d == a
  {
    Max(a, Min(a + depth, thickness - Abs(b)))
  }

  /** `fOpTongue`: `min(a, max(a - depth, abs(b) - thickness))`, a tongue
      of the given height and half-width added to the first object. */
  function Tongue(a: real, b: real, depth: real, thickness: real): (d: real)
    ensures d <= a
    ensures depth >= 0.0 ==> d >= a - depth
    ensures Abs(b) - thickness >= a ==> d == a
  {
    Min(a, Max(a - depth, Abs(b) - thickness))
  }

  /** The tongue is the groove cut into the complement, negated. */
  lemma TongueIsNegatedGroove(a: real, b: real, depth: real, thickness: real)
    ensures Tongue(a, b, depth, thickness) == -Groove(-a, b, depth, thickness)
  {
  }
}
