/** The domain operators: each rewrites the query point (an `inout` argument
    in the shader) and returns the index of the cell, mirror half or sector the
    point fell into. Here the rewritten point is the first out-parameter of a
    method whose steps follow the shader's assignments; the functions at the top
    specify the one-axis repetition that all of them share. */
module Domain {
  import opened Glsl
  import opened Helpers

  // ---------------------------------------------------------------------------
  // Specification of one-axis repetition with cells of width `size` centred on
  // the multiples of `size`.
  // ---------------------------------------------------------------------------

  /** The index of the cell that contains `p`: `floor((p + size/2) / size)`. */
  function CellIndex(p: real, size: real): (k: int)
    requires size != 0.0
  {
    Floor((p + size * 0.5) / size)
  }

  /** The coordinate of `p` inside its cell, `p - size * CellIndex(p, size)`; it
      lies in `[-size/2, size/2)` for a positive size and in `(size/2, -size/2]`
      for a negative one. */
  function Wrap(p: real, size: real): (q: real)
    requires size != 0.0
    ensures size > 0.0 ==> -size / 2.0 <= q < size / 2.0
    ensures size < 0.0 ==> size / 2.0 < q <= -size / 2.0
  {
    var k := CellIndex(p, size);
    FloorQuotient(p + size * 0.5, size, k);
    p - size * k as real
  }

  /** Every cell's local coordinate, negated in cells of even index (cell 0
      included) and kept in cells of odd index, so that neighbouring cells meet
      mirror-symmetrically. */
  function MirroredWrap(p: real, size: real): (q: real)
    requires size != 0.0
    ensures size > 0.0 ==> -size / 2.0 <= q <= size / 2.0
    ensures Abs(q) == Abs(Wrap(p, size))
  {
    if CellIndex(p, size) % 2 == 0 then -Wrap(p, size) else Wrap(p, size)
  }

  /** The cell index is the only integer `k` that puts `p - size * k` into
      `[-size/2, size/2)`. */
  lemma CellIndexUnique(p: real, size: real, k: int)
    requires size > 0.0
    requires -size / 2.0 <= p - size * k as real < size / 2.0
    ensures CellIndex(p, size) == k
    ensures Wrap(p, size) == p - size * k as real
  {
    var c := CellIndex(p, size);
    var w := Wrap(p, size);
    assert -size / 2.0 <= w < size / 2.0;
    Distribute(size, c, k);
    WholeMultipleInside(size, c - k, size * (c - k) as real);
  }

  /** `size * (c - k) == size * c - size * k`. */
  lemma Distribute(size: real, c: int, k: int)
    ensures size * (c - k) as real == size * c as real - size * k as real
  {
  }

  /** The only whole multiple `m = size * d` of a positive `size` strictly
      between `-size` and `size` is 0. */
  lemma WholeMultipleInside(size: real, d: int, m: real)
    requires size > 0.0 && m == size * d as real
    requires -size < m < size
    ensures d == 0
  {
  }

  /** Cell 0 is `[-size/2, size/2)`, and there the point is left unchanged. */
  lemma CentreCell(p: real, size: real)
    requires size > 0.0
    requires -size / 2.0 <= p < size / 2.0
    ensures CellIndex(p, size) == 0 && Wrap(p, size) == p
  {
    CellIndexUnique(p, size, 0);
  }

  /** Moving by one period moves to the next cell and leaves the local coordinate as it was. */
  lemma WrapPeriodic(p: real, size: real)
    requires size > 0.0
    ensures CellIndex(p + size, size) == CellIndex(p, size) + 1
    ensures Wrap(p + size, size) == Wrap(p, size)
  {
    var k := CellIndex(p, size);
    var w := Wrap(p, size);
    assert -size / 2.0 <= w < size / 2.0;
    assert size * (k + 1) as real == size * k as real + size;
    CellIndexUnique(p + size, size, k + 1);
  }

  /** Neighbouring cells are mirror images: one period further on, the
      mirrored coordinate changes sign. */
  lemma MirroredWrapAlternates(p: real, size: real)
    requires size > 0.0
    ensures MirroredWrap(p + size, size) == -MirroredWrap(p, size)
  {
    WrapPeriodic(p, size);
  }

  /** GLSL `mod(k, 2)` of a whole number is its parity. */
  lemma ModTwoOfWhole(k: int)
    ensures Mod(k as real, 2.0) == (k % 2) as real
  {
    FloorHalf(k);
  }

  /** GLSL `floor(k / 2)` of a whole number is Euclidean division by 2. */
  lemma FloorHalf(k: int)
    ensures Floor(k as real / 2.0) == k / 2
  {
  }

  /** Halving a cell index held as a real: `floor(c / 2)` is `k / 2` for `c == k`. */
  lemma HalfCell(k: int, c: real)
    requires c == k as real
    ensures Floor(c / 2.0) as real == (k / 2) as real
  {
    FloorHalf(k);
  }

  /** The shader's steps for one axis, `floor((p + h) / size)` and
      `mod(p + h, size) - h` with `h = size * 0.5`, compute `CellIndex` and `Wrap`. */
  lemma WrapStep(p: real, size: real)
    requires size != 0.0
    ensures Floor((p + size * 0.5) / size) == CellIndex(p, size)
    ensures Mod(p + size * 0.5, size) - size * 0.5 == Wrap(p, size)
  {
  }

  /** The mirrored step, multiplying by `mod(c, 2) * 2 - 1`, computes `MirroredWrap`. */
  lemma MirrorStep(p: real, size: real)
    requires size != 0.0
    ensures var c := Floor((p + size * 0.5) / size) as real;
      (Mod(p + size * 0.5, size) - size * 0.5) * (Mod(c, 2.0) * 2.0 - 1.0) == MirroredWrap(p, size)
  {
    WrapStep(p, size);
    var k := CellIndex(p, size);
    var w := Wrap(p, size);
    ModTwoOfWhole(k);
    if k % 2 == 0 {
      assert Mod(k as real, 2.0) * 2.0 - 1.0 == -1.0;
      assert w * -1.0 == -w;
    } else {
      assert Mod(k as real, 2.0) * 2.0 - 1.0 == 1.0;
    }
  }

  // ---------------------------------------------------------------------------
  // pR45
  // ---------------------------------------------------------------------------

  /** The 45-degree rotation `(p + vec2(p.y, -p.x)) * c` with `c` standing for `sqrt(0.5)`. */
  function Rot45(p: Vec2, c: real): (q: Vec2)
  {
    Vec2((p.x + p.y) * c, (p.y - p.x) * c)
  }

  /** With `c * c == 1/2` the rotation keeps `x*x + y*y`. */
  lemma Rot45KeepsNorm(p: Vec2, c: real)
    requires c * c == 0.5
    ensures var q := Rot45(p, c); q.x * q.x + q.y * q.y == p.x * p.x + p.y * p.y
  {
  }

  /** With `c * c == 1/2` two 45-degree turns make the quarter turn `(y, -x)`. */
  lemma Rot45Twice(p: Vec2, c: real)
    requires c * c == 0.5
    ensures Rot45(Rot45(p, c), c) == Vec2(p.y, -p.x)
  {
  }

  /** `pR45`: rotate `p` by 45 degrees. */
  method PR45(p: Vec2, g: Builtins) returns (q: Vec2)
    ensures q == Rot45(p, g.sqrt(0.5))
    ensures SqrtHalfExact(g) ==> q.x * q.x + q.y * q.y == p.x * p.x + p.y * p.y
  {
    q := Vec2((p.x + p.y) * g.sqrt(0.5), (p.y + -p.x) * g.sqrt(0.5));
    if SqrtHalfExact(g) {
      Rot45KeepsNorm(p, g.sqrt(0.5));
    }
  }

  // ---------------------------------------------------------------------------
  // One-axis repetition
  // ---------------------------------------------------------------------------

  /** `pMod1`: repeat space along one axis with period `size`. */
  method PMod1(p: real, size: real) returns (q: real, c: real)
    requires size != 0.0
    ensures c == CellIndex(p, size) as real && q == Wrap(p, size)
    ensures p == q + c * size
    ensures size > 0.0 ==> -size / 2.0 <= q < size / 2.0
    ensures size > 0.0 && -size / 2.0 <= p < size / 2.0 ==> c == 0.0 && q == p
  {
    var halfSize := size * 0.5;
    c := Floor((p + halfSize) / size) as real;
    q := Mod(p + halfSize, size) - halfSize;
    if size > 0.0 && -size / 2.0 <= p < size / 2.0 {
      CentreCell(p, size);
    }
  }

  /** `pModMirror1`: as `pMod1`, with the local coordinate multiplied by
      `mod(c, 2) * 2 - 1`, so negated in even cells and kept in odd ones. */
  method PModMirror1(p: real, size: real) returns (q: real, c: real)
    requires size != 0.0
    ensures c == CellIndex(p, size) as real
    ensures q == MirroredWrap(p, size)
    ensures CellIndex(p, size) % 2 == 0 ==> q == -Wrap(p, size)
    ensures CellIndex(p, size) % 2 == 1 ==> q == Wrap(p, size)
  {
    var halfSize := size * 0.5;
    c := Floor((p + halfSize) / size) as real;
    q := Mod(p + halfSize, size) - halfSize;
    MirrorStep(p, size);
    q := q * (Mod(c, 2.0) * 2.0 - 1.0);
  }

  /** `pModSingle1`: repeat only where `p >= 0`; the negative half-line is left
      as it is. The cell index is computed the same way in both halves. */
  method PModSingle1(p: real, size: real) returns (q: real, c: real)
    requires size != 0.0
    ensures c == CellIndex(p, size) as real
    ensures p >= 0.0 ==> q == Wrap(p, size)
    ensures p < 0.0 ==> q == p
  {
    var halfSize := size * 0.5;
    c := Floor((p + halfSize) / size) as real;
    q := p;
    if p >= 0.0 {
      q := Mod(p + halfSize, size) - halfSize;
    }
  }

  /** `pModInterval1`: repeat only in the cells `start` to `stop`; beyond them
      the outermost cell is extended, shifting the coordinate by whole periods. */
  method PModInterval1(p: real, size: real, start: real, stop: real) returns (q: real, c: real)
    requires size != 0.0
    ensures p == q + c * size
    ensures start <= stop ==> start <= c <= stop
    ensures var k := CellIndex(p, size) as real;
      && (start <= k <= stop ==> c == k && q == Wrap(p, size))
      && (k > stop ==> c == Max(stop, start))
      && (k < start ==> c == start)
  {
    var halfSize := size * 0.5;
    c := Floor((p + halfSize) / size) as real;
    q := Mod(p + halfSize, size) - halfSize;
    assert p == q + c * size;
    if c > stop {
      Shift(q, size, c, stop);
      q := q + size * (c - stop);
      c := stop;
    }
    if c < start {
      Shift(q, size, c, start);
      q := q + size * (c - start);
      c := start;
    }
  }

  /** Moving the index from `c` to `e` and the coordinate by `size * (c - e)`
      keeps `q + c * size`. */
  lemma Shift(q: real, size: real, c: real, e: real)
    ensures (q + size * (c - e)) + e * size == q + c * size
  {
  }

  // ---------------------------------------------------------------------------
  // pModPolar
  // ---------------------------------------------------------------------------

  /** The sector of angular width `TAU / repetitions` that `p`'s polar angle
      falls into, before the fold of `pModPolar`. */
  function SectorIndex(p: Vec2, repetitions: real, g: Builtins): (k: int)
    requires repetitions != 0.0
  {
    var angle := TAU / repetitions;
    Floor((g.atan(p.y, p.x) + angle / 2.0) / angle)
  }

  /** The polar angle of `p` remapped into the sector centred on angle 0. */
  function SectorAngle(p: Vec2, repetitions: real, g: Builtins): (a: real)
    requires repetitions != 0.0
    ensures repetitions > 0.0 ==> -(TAU / repetitions) / 2.0 <= a < (TAU / repetitions) / 2.0
  {
    var angle := TAU / repetitions;
    var a0 := g.atan(p.y, p.x) + angle / 2.0;
    var k := SectorIndex(p, repetitions, g);
    FloorQuotient(a0, angle, k);
    g.atan(p.y, p.x) - angle * k as real
  }

  /** The shader's `mod(a, angle) - angle/2` is `SectorAngle`. */
  lemma SectorAngleIsRemap(p: Vec2, repetitions: real, g: Builtins)
    requires repetitions != 0.0
    ensures var angle := TAU / repetitions;
      Mod(g.atan(p.y, p.x) + angle / 2.0, angle) - angle / 2.0 == SectorAngle(p, repetitions, g)
  {
    var angle := TAU / repetitions;
    var a0 := g.atan(p.y, p.x) + angle / 2.0;
    var k := Floor(a0 / angle);
    assert Mod(a0, angle) == a0 - angle * k as real;
    assert SectorAngle(p, repetitions, g) == g.atan(p.y, p.x) - angle * k as real;
  }

  /** `pModPolar`'s fold of the sector index `k`: an index whose size reaches
      `repetitions / 2` is replaced by its size. */
  function FoldSector(k: int, repetitions: real): (c: real)
    ensures Abs(c) == Abs(k as real)
    ensures Abs(c) >= repetitions / 2.0 ==> c >= 0.0
  {
    if Abs(k as real) >= repetitions / 2.0 then Abs(k as real) else k as real
  }

  /** `pModPolar`: repeat around the origin `repetitions` times. The point is
      rebuilt at its old radius at the remapped angle; a sector index whose size
      reaches `repetitions / 2` is folded to its absolute value. */
  method PModPolar(p: Vec2, repetitions: real, g: Builtins) returns (q: Vec2, c: real)
    requires repetitions != 0.0
    ensures var a := SectorAngle(p, repetitions, g);
      q == Vec2(g.cos(a) * g.length(p.x, p.y), g.sin(a) * g.length(p.x, p.y))
    ensures Abs(c) == Abs(SectorIndex(p, repetitions, g) as real)
    ensures Abs(c) >= repetitions / 2.0 ==> c >= 0.0
    ensures Abs(c) < repetitions / 2.0 ==> c == SectorIndex(p, repetitions, g) as real
    ensures c == FoldSector(SectorIndex(p, repetitions, g), repetitions)
  {
    var angle := TAU / repetitions;
    var a := g.atan(p.y, p.x) + angle / 2.0;
    var r := g.length(p.x, p.y);
    c := Floor(a / angle) as real;
    a := Mod(a, angle) - angle / 2.0;
    SectorAngleIsRemap(p, repetitions, g);
    q := Vec2(g.cos(a) * r, g.sin(a) * r);
    if Abs(c) >= repetitions / 2.0 {
      c := Abs(c);
    }
  }

  /** The fold does not bound the index by `repetitions / 2`: on the negative
      x axis, where `atan` gives half a turn, three repetitions put the point
      in sector 2, which is kept as it is. */
  lemma PolarIndexAboveHalf(g: Builtins)
    requires g.atan(0.0, -1.0) == TAU / 2.0
    ensures SectorIndex(Vec2(-1.0, 0.0), 3.0, g) == 2
  {
    PolarOddTop(Vec2(-1.0, 0.0), 3.0, 1, g);
  }

  /** An integer comparison read off a scaled one: `s * i < s * j + s` with a
      positive `s` means `i <= j`. */
  lemma BelowNext(s: real, i: int, j: int)
    requires s > 0.0 && s * i as real < s * j as real + s
    ensures i <= j
  {
    var d := i - j - 1;
    assert s * d as real == s * i as real - s * j as real - s;
    NonNegativeProduct(s, d as real);
  }

  /** A product with a positive left factor is negative only if the right factor is. */
  lemma NonNegativeProduct(s: real, d: real)
    requires s > 0.0
    ensures s * d < 0.0 ==> d < 0.0
  {
  }

  /** `m` sectors of an even count `2m` make half a turn. */
  lemma EvenShare(n: real, m: int)
    requires m >= 1 && n == 2.0 * m as real
    ensures (TAU / n) * m as real == TAU / 2.0
    ensures (TAU / n) * (-m) as real == -TAU / 2.0
  {
  }

  /** `m` sectors of an odd count `2m + 1` make half a turn less half a sector. */
  lemma OddShare(n: real, m: int)
    requires m >= 0 && n == 2.0 * m as real + 1.0
    ensures (TAU / n) * m as real == TAU / 2.0 - (TAU / n) / 2.0
    ensures (TAU / n) * (-m) as real == -TAU / 2.0 + (TAU / n) / 2.0
  {
  }

  /** Sector `j` covers the polar angles `[s*j - s/2, s*j + s/2)`, `s` the
      sector's width; so the index is at least `j` exactly from that sector's
      lower edge on ... */
  lemma SectorAtLeast(p: Vec2, n: real, j: int, g: Builtins)
    requires n > 0.0
    ensures var s := TAU / n;
      SectorIndex(p, n, g) >= j <==> g.atan(p.y, p.x) >= s * j as real - s / 2.0
  {
    var s := TAU / n;
    var k := SectorIndex(p, n, g);
    FloorQuotient(g.atan(p.y, p.x) + s / 2.0, s, k);
    if k >= j {
      ScaledMonotone(s, j, k);
    }
    if g.atan(p.y, p.x) >= s * j as real - s / 2.0 {
      BelowNext(s, j, k);
    }
  }

  /** ... and at most `j` exactly below its upper edge. */
  lemma SectorAtMost(p: Vec2, n: real, j: int, g: Builtins)
    requires n > 0.0
    ensures var s := TAU / n;
      SectorIndex(p, n, g) <= j <==> g.atan(p.y, p.x) < s * j as real + s / 2.0
  {
    var s := TAU / n;
    var k := SectorIndex(p, n, g);
    FloorQuotient(g.atan(p.y, p.x) + s / 2.0, s, k);
    if k <= j {
      ScaledMonotone(s, k, j);
    }
    if g.atan(p.y, p.x) < s * j as real + s / 2.0 {
      BelowNext(s, k, j);
    }
  }

  /** Scaling by a positive `s` keeps the order of two integers. */
  lemma ScaledMonotone(s: real, i: int, j: int)
    requires s > 0.0 && i <= j
    ensures s * i as real <= s * j as real
  {
    assert s * j as real - s * i as real == s * (j - i) as real;
  }

  /** With an even count `n = 2m`, and `atan` in `[-TAU/2, TAU/2]` as GLSL's
      `atan(y, x)` is, the folded index lies in `(-m, m]`. It is `m` exactly on
      the sector split by the jump of `atan` on the negative x axis: its upper
      half has index `m` and its lower half index `-m`, and the fold merges the
      two into `m`. */
  lemma PolarEvenFold(p: Vec2, n: real, m: int, g: Builtins)
    requires m >= 1 && n == 2.0 * m as real
    requires -TAU / 2.0 <= g.atan(p.y, p.x) <= TAU / 2.0
    ensures -(m as real) < FoldSector(SectorIndex(p, n, g), n) <= m as real
    ensures var s := TAU / n; var a := g.atan(p.y, p.x);
      SectorIndex(p, n, g) == m <==> a >= TAU / 2.0 - s / 2.0
    ensures var s := TAU / n; var a := g.atan(p.y, p.x);
      SectorIndex(p, n, g) == -m <==> a < -TAU / 2.0 + s / 2.0
    ensures var s := TAU / n; var a := g.atan(p.y, p.x);
      FoldSector(SectorIndex(p, n, g), n) == m as real <==> a >= TAU / 2.0 - s / 2.0 || a < -TAU / 2.0 + s / 2.0
  {
    EvenShare(n, m);
    SectorAtMost(p, n, m, g);
    SectorAtLeast(p, n, -m, g);
    SectorAtLeast(p, n, m, g);
    SectorAtMost(p, n, -m, g);
  }

  /** With an odd count `n = 2m + 1` and `atan` in `[-TAU/2, TAU/2)`, every
      index lies in `[-m, m]`, below `n / 2`, so the fold never applies; the
      sectors on either side of the negative x axis are the two different
      sectors `m` and `-m`. */
  lemma PolarOddFold(p: Vec2, n: real, m: int, g: Builtins)
    requires m >= 0 && n == 2.0 * m as real + 1.0
    requires -TAU / 2.0 <= g.atan(p.y, p.x) < TAU / 2.0
    ensures -m <= SectorIndex(p, n, g) <= m
    ensures FoldSector(SectorIndex(p, n, g), n) == SectorIndex(p, n, g) as real
    ensures var s := TAU / n; var a := g.atan(p.y, p.x);
      SectorIndex(p, n, g) == m <==> a >= TAU / 2.0 - s
    ensures var s := TAU / n; var a := g.atan(p.y, p.x);
      SectorIndex(p, n, g) == -m <==> a < -TAU / 2.0 + s
  {
    OddShare(n, m);
    SectorAtMost(p, n, m, g);
    SectorAtLeast(p, n, -m, g);
    SectorAtLeast(p, n, m, g);
    SectorAtMost(p, n, -m, g);
  }

  /** With an odd count `n = 2m + 1`, a point where `atan` is exactly half a
      turn gets index `m + 1`, above `n / 2`, and the fold keeps it. */
  lemma PolarOddTop(p: Vec2, n: real, m: int, g: Builtins)
    requires m >= 0 && n == 2.0 * m as real + 1.0
    requires g.atan(p.y, p.x) == TAU / 2.0
    ensures SectorIndex(p, n, g) == m + 1
    ensures FoldSector(SectorIndex(p, n, g), n) == (m + 1) as real > n / 2.0
  {
    var s := TAU / n;
    var k := SectorIndex(p, n, g);
    FloorQuotient(TAU / 2.0 + s / 2.0, s, k);
    assert s * (m + 1) as real == TAU / 2.0 + s / 2.0;
    BelowNext(s, k, m + 1);
    BelowNext(s, m + 1, k);
  }

  // ---------------------------------------------------------------------------
  // Repetition in two and three dimensions
  // ---------------------------------------------------------------------------

  /** `pMod2`: `pMod1` on each component. */
  method PMod2(p: Vec2, size: Vec2) returns (q: Vec2, c: Vec2)
    requires size.x != 0.0 && size.y != 0.0
    ensures q == Vec2(Wrap(p.x, size.x), Wrap(p.y, size.y))
    ensures c == Vec2(CellIndex(p.x, size.x) as real, CellIndex(p.y, size.y) as real)
  {
    var halfSize := Vec2(size.x * 0.5, size.y * 0.5);
    c := Vec2(Floor((p.x + halfSize.x) / size.x) as real, Floor((p.y + halfSize.y) / size.y) as real);
    q := Vec2(Mod(p.x + halfSize.x, size.x) - halfSize.x, Mod(p.y + halfSize.y, size.y) - halfSize.y);
  }

  /** `pModMirror2`: `pModMirror1` on each component. GLSL's vector `floor`,
      `mod` and arithmetic act componentwise, so the shader's four vector
      statements are `pModMirror1`'s four statements on each axis. */
  method PModMirror2(p: Vec2, size: Vec2) returns (q: Vec2, c: Vec2)
    requires size.x != 0.0 && size.y != 0.0
    ensures q == Vec2(MirroredWrap(p.x, size.x), MirroredWrap(p.y, size.y))
    ensures c == Vec2(CellIndex(p.x, size.x) as real, CellIndex(p.y, size.y) as real)
  {
    var qx, cx := PModMirror1(p.x, size.x);
    var qy, cy := PModMirror1(p.y, size.y);
    q, c := Vec2(qx, qy), Vec2(cx, cy);
  }

  /** `pModGrid2`: as `pModMirror2`, then shifted by half a cell and folded at
      the diagonal so that `x <= y`; the returned index is halved (`floor(c / 2)`). */
  method PModGrid2(p: Vec2, size: Vec2) returns (q: Vec2, cell: Vec2)
    requires size.x != 0.0 && size.y != 0.0
    ensures q.x <= q.y
    ensures var u := MirroredWrap(p.x, size.x) - size.x * 0.5;
      var v := MirroredWrap(p.y, size.y) - size.y * 0.5;
      q == Vec2(Min(u, v), Max(u, v))
    ensures cell == Vec2((CellIndex(p.x, size.x) / 2) as real, (CellIndex(p.y, size.y) / 2) as real)
  {
    // The shader's first four statements are exactly those of pModMirror2.
    var c;
    q, c := PModMirror2(p, size);
    var halfSize := Vec2(size.x * 0.5, size.y * 0.5);
    q := Vec2(q.x - halfSize.x, q.y - halfSize.y);
    if q.x > q.y {
      q := Vec2(q.y, q.x);
    }
    HalfCell(CellIndex(p.x, size.x), c.x);
    HalfCell(CellIndex(p.y, size.y), c.y);
    cell := Vec2(Floor(c.x / 2.0) as real, Floor(c.y / 2.0) as real);
  }

  /** `pMod3`: `pMod1` on each of the three components. */
  method PMod3(p: Vec3, size: Vec3) returns (q: Vec3, c: Vec3)
    requires size.x != 0.0 && size.y != 0.0 && size.z != 0.0
    ensures q == Vec3(Wrap(p.x, size.x), Wrap(p.y, size.y), Wrap(p.z, size.z))
    ensures c == Vec3(CellIndex(p.x, size.x) as real, CellIndex(p.y, size.y) as real, CellIndex(p.z, size.z) as real)
  {
    var halfSize := Vec3(size.x * 0.5, size.y * 0.5, size.z * 0.5);
    c := Vec3(
      Floor((p.x + halfSize.x) / size.x) as real,
      Floor((p.y + halfSize.y) / size.y) as real,
      Floor((p.z + halfSize.z) / size.z) as real);
    q := Vec3(
      Mod(p.x + halfSize.x, size.x) - halfSize.x,
      Mod(p.y + halfSize.y, size.y) - halfSize.y,
      Mod(p.z + halfSize.z, size.z) - halfSize.z);
  }

  // ---------------------------------------------------------------------------
  // Mirroring and reflection
  // ---------------------------------------------------------------------------

  /** `pMirror`: mirror at the plane at distance `dist` from the origin. The
      returned side `s` (never 0) and the new coordinate recover the old one. */
  method PMirror(p: real, dist: real) returns (q: real, s: real)
    ensures s == Sgn(p)
    ensures q == Abs(p) - dist
    ensures q >= -dist
    ensures p == s * (q + dist)
  {
    s := Sgn(p);
    q := Abs(p) - dist;
  }

  /** `pMirrorOctant`: mirror both axes, then swap so that `x >= y`, which folds
      the plane into one eighth. Returns the signs of the original components. */
  method PMirrorOctant(p: Vec2, dist: Vec2) returns (q: Vec2, s: Vec2)
    ensures s == Sgn2(p)
    ensures q.x >= q.y
    ensures q.x == Max(Abs(p.x) - dist.x, Abs(p.y) - dist.y)
    ensures q.y == Min(Abs(p.x) - dist.x, Abs(p.y) - dist.y)
  {
    s := Sgn2(p);
    var x, _ := PMirror(p.x, dist.x);
    var y, _ := PMirror(p.y, dist.y);
    q := Vec2(x, y);
    if q.y > q.x {
      q := Vec2(q.y, q.x);
    }
  }

  /** `pReflect`: reflect at the plane `dot(p, n) + offset == 0` when `p` is on
      its negative side; returns the side `p` was on. For a unit normal the
      result is always on the non-negative side, at the same distance. */
  method PReflect(p: Vec3, n: Vec3, offset: real) returns (q: Vec3, s: real)
    ensures var t := Dot3(p, n) + offset;
      && (t >= 0.0 ==> q == p && s == 1.0)
      && (t < 0.0 ==> s == -1.0 && q == Vec3(p.x - 2.0 * t * n.x, p.y - 2.0 * t * n.y, p.z - 2.0 * t * n.z))
      && (Dot3(n, n) == 1.0 ==> Dot3(q, n) + offset == Abs(t))
  {
    var t := Dot3(p, n) + offset;
    q := p;
    if t < 0.0 {
      q := Vec3(p.x - 2.0 * t * n.x, p.y - 2.0 * t * n.y, p.z - 2.0 * t * n.z);
      ReflectedDot(p, n, t);
    }
    s := Sgn(t);
  }

  /** `dot(p - 2 t n, n) == dot(p, n) - 2 t dot(n, n)`. */
  lemma ReflectedDot(p: Vec3, n: Vec3, t: real)
    ensures Dot3(Vec3(p.x - 2.0 * t * n.x, p.y - 2.0 * t * n.y, p.z - 2.0 * t * n.z), n)
         == Dot3(p, n) - 2.0 * t * Dot3(n, n)
  {
  }
}
