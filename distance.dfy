/** The piecewise-linear distance primitives and the generalised distance
    function (GDF) behind the platonic and truncated solids: the largest
    `abs(dot(p, v))` over a contiguous range of a fixed table of 19 unit
    directions, minus a radius. The table's contents (normalised vectors built
    from the golden ratio) are a parameter of the model. */
module Distance {
  import opened Glsl
  import opened Helpers

  // ---------------------------------------------------------------------------
  // Plane, boxes, cylinder and disc
  // ---------------------------------------------------------------------------

  /** `fPlane`: `dot(p, n) + distanceFromOrigin`; the origin is at that distance. */
  function Plane(p: Vec3, n: Vec3, distanceFromOrigin: real): (d: real)
    ensures p == Vec3(0.0, 0.0, 0.0) ==> d == distanceFromOrigin
  {
    Dot3(p, n) + distanceFromOrigin
  }

  /** The point `p + t * n`. */
  function Along(p: Vec3, n: Vec3, t: real): (q: Vec3)
  {
    Vec3(p.x + t * n.x, p.y + t * n.y, p.z + t * n.z)
  }

  /** For a unit normal, moving by `t` along it changes the plane's value by `t`. */
  lemma PlaneAlongNormal(p: Vec3, n: Vec3, distanceFromOrigin: real, t: real)
    requires Dot3(n, n) == 1.0
    ensures Plane(Along(p, n, t), n, distanceFromOrigin) == Plane(p, n, distanceFromOrigin) + t
  {
  }

  /** For a unit normal, stepping back by the plane's value lands on the plane. */
  lemma PlaneFoot(p: Vec3, n: Vec3, distanceFromOrigin: real)
    requires Dot3(n, n) == 1.0
    ensures Plane(Along(p, n, -Plane(p, n, distanceFromOrigin)), n, distanceFromOrigin) == 0.0
  {
  }

  /** `fBoxCheap`: `vmax3(abs(p) - b)`, the largest slab distance; it is not
      positive exactly inside the box, and at the origin it is `vmax3(-b)`. */
  function BoxCheap(p: Vec3, b: Vec3): (d: real)
    ensures d >= Abs(p.x) - b.x && d >= Abs(p.y) - b.y && d >= Abs(p.z) - b.z
    ensures d == Abs(p.x) - b.x || d == Abs(p.y) - b.y || d == Abs(p.z) - b.z
    ensures d <= 0.0 <==> Abs(p.x) <= b.x && Abs(p.y) <= b.y && Abs(p.z) <= b.z
    ensures p == Vec3(0.0, 0.0, 0.0) ==> d == Vmax3(Vec3(-b.x, -b.y, -b.z))
  {
    Vmax3(Vec3(Abs(p.x) - b.x, Abs(p.y) - b.y, Abs(p.z) - b.z))
  }

  /** `fBox2Cheap`: `vmax2(abs(p) - b)`, the two-dimensional (endless) box. */
  function Box2Cheap(p: Vec2, b: Vec2): (d: real)
    ensures d >= Abs(p.x) - b.x && d >= Abs(p.y) - b.y
    ensures d == Abs(p.x) - b.x || d == Abs(p.y) - b.y
    ensures d <= 0.0 <==> Abs(p.x) <= b.x && Abs(p.y) <= b.y
    ensures p == Vec2(0.0, 0.0) ==> d == Vmax2(Vec2(-b.x, -b.y))
  {
    Vmax2(Vec2(Abs(p.x) - b.x, Abs(p.y) - b.y))
  }

  /** `fCylinder`: an upright cylinder of radius `r` and half-height `height`;
      the larger of the radial and the vertical distance, so not positive
      exactly inside. */
  method Cylinder(p: Vec3, r: real, height: real, g: Builtins) returns (d: real)
    ensures d >= g.length(p.x, p.z) - r && d >= Abs(p.y) - height
    ensures d == g.length(p.x, p.z) - r || d == Abs(p.y) - height
    ensures d <= 0.0 <==> g.length(p.x, p.z) <= r && Abs(p.y) <= height
  {
    d := g.length(p.x, p.z) - r;
    d := Max(d, Abs(p.y) - height);
  }

  /** `fDisc`: a flat disc of radius `r` in the xz plane. Over the disc
      (`length(p.xz) < r`) the distance is the height `abs(p.y)`; beyond the
      rim it is the length of `(p.y, length(p.xz) - r)`. */
  function Disc(p: Vec3, r: real, g: Builtins): (d: real)
    ensures g.length(p.x, p.z) - r < 0.0 ==> d == Abs(p.y)
    ensures LengthDominates(g) ==> d >= Abs(p.y) && d >= g.length(p.x, p.z) - r
  {
    var l := g.length(p.x, p.z) - r;
    if l < 0.0 then Abs(p.y) else g.length(p.y, l)
  }

  // ---------------------------------------------------------------------------
  // The generalised distance function
  // ---------------------------------------------------------------------------

  /** The number of entries of the direction table. */
  const GDF_VECTOR_COUNT: int := 19

  /** The largest `abs(dot(p, table[i]))` for `begin <= i <= end`, or 0 for
      an empty range: the value the shader's loop accumulates from 0. */
  function MaxAbsDot(p: Vec3, table: seq<Vec3>, begin: int, end: int): (m: real)
    requires begin <= end ==> 0 <= begin && end < |table|
    ensures m >= 0.0
    ensures forall i :: begin <= i <= end ==> m >= Abs(Dot3(p, table[i]))
    ensures m == 0.0 || exists i :: begin <= i <= end && m == Abs(Dot3(p, table[i]))
    decreases end - begin
  {
    if end < begin then 0.0
    else
      var rest := MaxAbsDot(p, table, begin, end - 1);
      var here := Abs(Dot3(p, table[end]));
      assert rest != 0.0 ==> exists i :: begin <= i <= end && rest == Abs(Dot3(p, table[i]));
      Max(rest, here)
  }

  /** At the origin every dot product vanishes, so the maximum is 0. */
  lemma MaxAbsDotAtOrigin(table: seq<Vec3>, begin: int, end: int)
    requires begin <= end ==> 0 <= begin && end < |table|
    ensures MaxAbsDot(Vec3(0.0, 0.0, 0.0), table, begin, end) == 0.0
    decreases end - begin
  {
  }

  /** `fGDF`: starting from `d = 0`, take `d = max(d, abs(dot(p, table[i])))`
      for `i` from `begin` to `end`, and return `d - r`. */
  method GDF(p: Vec3, r: real, begin: int, end: int, table: seq<Vec3>) returns (d: real)
    requires |table| == GDF_VECTOR_COUNT
    requires begin <= end ==> 0 <= begin && end < |table|
    ensures d == MaxAbsDot(p, table, begin, end) - r
    ensures d >= -r
    ensures forall i :: begin <= i <= end ==> d >= Abs(Dot3(p, table[i])) - r
    ensures begin > end ==> d == -r
    ensures p == Vec3(0.0, 0.0, 0.0) ==> d == -r
  {
    d := 0.0;
    var i := begin;
    while i <= end
      invariant begin <= end ==> begin <= i <= end + 1
      invariant begin > end ==> i == begin
      invariant d == MaxAbsDot(p, table, begin, i - 1)
      decreases end - i
    {
      d := Max(d, Abs(Dot3(p, table[i])));
      i := i + 1;
    }
    if p == Vec3(0.0, 0.0, 0.0) {
      MaxAbsDotAtOrigin(table, begin, end);
    }
    d := d - r;
  }

  /** `fOctahedron`: the GDF over directions 3 to 6. */
  method Octahedron(p: Vec3, r: real, table: seq<Vec3>) returns (d: real)
    requires |table| == GDF_VECTOR_COUNT
    ensures d == MaxAbsDot(p, table, 3, 6) - r
    ensures d >= -r
  {
    d := GDF(p, r, 3, 6, table);
  }

  /** `fDodecahedron`: the GDF over directions 13 to 18. */
  method Dodecahedron(p: Vec3, r: real, table: seq<Vec3>) returns (d: real)
    requires |table| == GDF_VECTOR_COUNT
    ensures d == MaxAbsDot(p, table, 13, 18) - r
    ensures d >= -r
  {
    d := GDF(p, r, 13, 18, table);
  }

  /** `fIcosahedron`: the GDF over directions 3 to 12. */
  method Icosahedron(p: Vec3, r: real, table: seq<Vec3>) returns (d: real)
    requires |table| == GDF_VECTOR_COUNT
    ensures d == MaxAbsDot(p, table, 3, 12) - r
    ensures d >= -r
  {
    d := GDF(p, r, 3, 12, table);
  }

  /** `fTruncatedOctahedron`: the GDF over directions 0 to 6. */
  method TruncatedOctahedron(p: Vec3, r: real, table: seq<Vec3>) returns (d: real)
    requires |table| == GDF_VECTOR_COUNT
    ensures d == MaxAbsDot(p, table, 0, 6) - r
    ensures d >= -r
  {
    d := GDF(p, r, 0, 6, table);
  }

  /** `fTruncatedIcosahedron`: the GDF over directions 3 to 18. */
  method TruncatedIcosahedron(p: Vec3, r: real, table: seq<Vec3>) returns (d: real)
    requires |table| == GDF_VECTOR_COUNT
    ensures d == MaxAbsDot(p, table, 3, 18) - r
    ensures d >= -r
  {
    d := GDF(p, r, 3, 18, table);
  }

  /** The truncated solids cut their base solid with more planes, so they are
      never closer than it: adding directions to the range can only raise `d`. */
  lemma MaxAbsDotGrowsWithRange(p: Vec3, table: seq<Vec3>, begin: int, end: int, begin': int, end': int)
    requires begin' <= begin <= end <= end'
    requires 0 <= begin' && end' < |table|
    ensures MaxAbsDot(p, table, begin, end) <= MaxAbsDot(p, table, begin', end')
  {
  }
}
