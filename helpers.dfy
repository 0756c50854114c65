/** The shared numeric helpers of the shader library: the sign function that
    never returns zero and the largest component of a vector. */
module Helpers {
  import opened Glsl

  /** `sgn(x)`: -1 for negative `x`, otherwise +1, so never 0 and `sgn(0) == 1`. */
  function Sgn(x: real): (s: real)
    ensures s == 1.0 || s == -1.0
    ensures s < 0.0 <==> x < 0.0
    ensures s * x == Abs(x)
  {
    if x < 0.0 then -1.0 else 1.0
  }

  /** `sgn2(v)`: the never-zero sign of each component. */
  function Sgn2(v: Vec2): (s: Vec2)
    ensures s == Vec2(Sgn(v.x), Sgn(v.y))
  {
    Vec2(if v.x < 0.0 then -1.0 else 1.0, if v.y < 0.0 then -1.0 else 1.0)
  }

  /** `vmax2(v)`: the largest component. */
  function Vmax2(v: Vec2): (m: real)
    ensures m >= v.x && m >= v.y
    ensures m == v.x || m == v.y
  {
    Max(v.x, v.y)
  }

  /** `vmax3(v)`: the largest component. */
  function Vmax3(v: Vec3): (m: real)
    ensures m >= v.x && m >= v.y && m >= v.z
    ensures m == v.x || m == v.y || m == v.z
  {
    Max(Max(v.x, v.y), v.z)
  }
}
