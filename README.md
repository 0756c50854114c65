# hg_sdf shader algebra in Dafny

The hg_sdf TypeScript port builds GLSL shader functions for signed distance
fields. This project models what those emitted functions compute, over exact
`real` arithmetic:

- the **combination operators** merge two distances `a` and `b` into one:
  - Chamfer, Round, Columns and Stairs, each in a union, intersection and difference form;
  - soft union, pipe, engrave, groove and tongue;
- the **domain operators** rewrite a query point in place and return a cell index:
  - `pR45`;
  - one-axis repetition (`pMod1`, `pModMirror1`, `pModSingle1`, `pModInterval1`);
  - polar repetition (`pModPolar`);
  - the 2D and 3D repetitions (`pMod2`, `pModMirror2`, `pModGrid2`, `pMod3`);
  - mirroring (`pMirror`, `pMirrorOctant`) and reflection (`pReflect`);
- the **helpers** `sgn`, `sgn2`, `vmax2` and `vmax3`;
- the **piecewise-linear primitives**:
  - plane, cheap boxes, cylinder and disc;
  - the generalised distance function `fGDF`, a max-accumulating loop over a 19-entry direction table;
  - the five polyhedra built on `fGDF`.

## Modules

**`Glsl`** (`glsl.dfy`) holds the GLSL built-ins as the emitted code uses them.
- `floor` and `mod(x, y) = x - y * floor(x / y)` are exact. The definition of `mod` is the one in section 8.3 of the OpenGL Shading Language specification.
- `min`, `max`, `abs` and `dot` are exact too.
- `sqrt`, `length`, `atan`, `cos` and `sin` are uninterpreted functions held in a `Builtins` record that callers pass in.
- Three ghost predicates state the general facts the model uses about those built-ins:
  - `LengthLaws`: `length` is never negative and vanishes at the origin;
  - `LengthDominates`: `length` is at least the size of either component;
  - `SqrtHalfExact`: `sqrt(0.5)` is positive and squares to `0.5`.

  A contract that needs one of these facts states it as a hypothesis. The polar lemmas also take the range of `atan` as a hypothesis. GLSL's `atan(y, x)` lies in `[-TAU/2, TAU/2]`. `Domain.PolarIndexAboveHalf` takes the value of `atan` on the negative x axis as one.

**`Helpers`**, **`Domain`**, **`Combination`** and **`Distance`** follow the four source files.

Each domain operator becomes a `method`:
- the shader's `inout` point becomes its first out-parameter;
- its body follows the shader's assignments one by one, except that `pModMirror2` applies `pModMirror1` to each axis (GLSL's vector operations act componentwise) and `pModGrid2` starts with a call of `pModMirror2`, whose four statements it repeats;
- the specification functions `CellIndex`, `Wrap`, `MirroredWrap`, `Rot45` and `SectorAngle` describe the result.

The step-by-step Columns operators (union, difference, and the intersection built on the difference), `fCylinder`, the `fGDF` loop and the five polyhedra that call it are methods too. Everything else is a function.

Four behaviours of the code are easily misread. The model proves each as the code has it:

- `pModMirror1` multiplies by `mod(c, 2) * 2 - 1`. That negates the coordinate in even cells, cell 0 included, and keeps it in odd cells. So the cell containing the origin *is* mirrored.
- `fOpUnionStairs(1, 1, 0.4, 4)` is `0.8`, not `min(1, 1)`.
- `fOpUnionChamfer(a, b, 0)` is not `min(a, b)` for negative inputs; at `a = b = -1` it is exactly `-2 * sqrt(0.5)`. Dually, `fOpIntersectionChamfer(a, b, 0)` is not `max(a, b)` for positive inputs; at `a = b = 1` it is exactly `2 * sqrt(0.5)`.
- `pModPolar`'s cell index is not bounded by `repetitions / 2`, and its fold does the opposite of what the comment beside it says. Take `atan` in `[-TAU/2, TAU/2]`:
  - with an even count `n = 2m`, the sector centred on the negative x axis is split by the jump of `atan` from half a turn to minus half a turn. Its upper half gets index `m`, its lower half `-m`, and the fold merges them into `m`;
  - with an odd count `n = 2m + 1` and `atan` below half a turn, every index lies in `[-m, m]`, below `n / 2`, so the fold never applies. The sectors on either side of the jump are the two different sectors `m` and `-m`;
  - where `atan` is exactly half a turn, an odd count gives index `m + 1`, above `n / 2`. Three repetitions give 2 on the negative x axis.

## Model

| member | source | states |
|---|---|---|
| Glsl.Mod | src/domain.ts:139 | GLSL `mod` takes the sign of the divisor: it lies in `[0, y)` for `y > 0` and in `(y, 0]` for `y < 0` |
| Helpers.Sgn | src/helpers.ts:28-30 | the sign is `-1` or `+1`, never 0; it is negative exactly when `x` is; `sgn(x) * x == abs(x)` |
| Helpers.Sgn2 | src/helpers.ts:32-41 | componentwise `sgn` |
| Helpers.Vmax2 | src/helpers.ts:64-66 | at least both components and equal to one of them |
| Helpers.Vmax3 | src/helpers.ts:68-70 | at least all three components and equal to one of them |
| Domain.Wrap | src/domain.ts:137-139 | the local coordinate `p - size * cellIndex` lies in `[-size/2, size/2)` for positive sizes and `(size/2, -size/2]` for negative ones |
| Domain.MirroredWrap | src/domain.ts:160-162 | the mirrored coordinate has the size of the plain one and lies in `[-size/2, size/2]` |
| Domain.CellIndexUnique | src/domain.ts:137-139 | the cell index is the only integer `k` that puts `p - size * k` into `[-size/2, size/2)` |
| Domain.CentreCell | src/domain.ts:137-139 | a point in `[-size/2, size/2)` is in cell 0 and keeps its coordinate |
| Domain.WrapPeriodic | src/domain.ts:137-139 | moving by one period adds 1 to the cell index and keeps the local coordinate |
| Domain.MirroredWrapAlternates | src/domain.ts:160-162 | one period further on, the mirrored coordinate changes sign, so neighbouring cells are mirror images |
| Domain.ModTwoOfWhole | src/domain.ts:162 | `mod(k, 2)` of a whole number is its parity |
| Domain.FloorHalf | src/domain.ts:325 | `floor(k / 2)` of a whole number is Euclidean division by 2 |
| Domain.Rot45KeepsNorm | src/domain.ts:118 | with `c * c == 1/2` the 45-degree map keeps `x*x + y*y` |
| Domain.Rot45Twice | src/domain.ts:118 | with `c * c == 1/2` two 45-degree turns make the quarter turn `(y, -x)` |
| Domain.PR45 | src/domain.ts:118 | the new point is `(p + (p.y, -p.x)) * sqrt(0.5)`; it keeps `x*x + y*y` when `sqrt(0.5)` is exact |
| Domain.PMod1 | src/domain.ts:137-140 | `c` is the cell index and the new coordinate the local one: `p_in == p_out + c * size`, `-size/2 <= p_out < size/2` for `size > 0`, and a point already in `[-size/2, size/2)` gets `c == 0` and is unchanged |
| Domain.PModMirror1 | src/domain.ts:159-163 | same cell index as `pMod1`; the coordinate is `pMod1`'s, negated in even cells (cell 0 included) and kept in odd cells |
| Domain.PModSingle1 | src/domain.ts:182-187 | same cell index as `pMod1` on both half-lines; `p < 0` is unchanged and `p >= 0` gets `pMod1`'s coordinate |
| Domain.PModInterval1 | src/domain.ts:212-224 | `p_in == p_out + c * size` after clamping; `start <= c <= stop` when `start <= stop`; a raw index inside the range gives `pMod1`'s result; above the range `c` becomes `stop` (then `start` if `stop < start`); below it, `start` |
| Domain.SectorAngle | src/domain.ts:246-250 | for a positive repetition count the remapped angle lies in `[-angle/2, angle/2)` with `angle = TAU / repetitions` |
| Domain.SectorAngleIsRemap | src/domain.ts:246-250 | the shader's `mod(a, angle) - angle/2` is the polar angle minus a whole number of sectors |
| Domain.PModPolar | src/domain.ts:246-255 | the new point is the old radius at the remapped angle; `abs(c)` is the size of the sector index; an index of size at least `repetitions / 2` is folded to its absolute value, so it is non-negative; a smaller one is kept as it is; in all, `c` is `FoldSector` of the sector index |
| Domain.PolarIndexAboveHalf | src/domain.ts:246-254 | where `atan` gives half a turn on the negative x axis, three repetitions yield index 2, above `repetitions / 2`: `PolarOddTop` at `m = 1` |
| Domain.SectorAtLeast | src/domain.ts:246-249 | sector `j` starts at angle `s*j - s/2`, `s` the sector width: the index is at least `j` exactly when the polar angle is at least that |
| Domain.SectorAtMost | src/domain.ts:246-249 | the index is at most `j` exactly when the polar angle is below `s*j + s/2`, the end of sector `j` |
| Domain.PolarEvenFold | src/domain.ts:246-254 | for `n = 2m` and `atan` in `[-TAU/2, TAU/2]`: the folded index lies in `(-m, m]`; the raw index is `m` exactly on the upper half of the sector split by the negative x axis and `-m` exactly on its lower half; the folded index is `m` exactly on that whole sector |
| Domain.PolarOddFold | src/domain.ts:246-254 | for `n = 2m + 1` and `atan` in `[-TAU/2, TAU/2)`: the index lies in `[-m, m]` and the fold leaves it unchanged; it is `m` exactly in the last sector below half a turn and `-m` exactly in the first sector above minus half a turn |
| Domain.PolarOddTop | src/domain.ts:246-254 | for `n = 2m + 1` and `atan` exactly half a turn: the index is `m + 1`, above `n / 2`, and the fold keeps it |
| Domain.PMod2 | src/domain.ts:274-277 | componentwise `pMod1`: local coordinates and cell indices per axis |
| Domain.PModMirror2 | src/domain.ts:296-300 | componentwise `pModMirror1` |
| Domain.PModGrid2 | src/domain.ts:319-325 | after mirroring and the shift by half a cell, the components are sorted (`x <= y`, the smaller mirrored value first); the returned index is each cell index divided by 2, rounded down |
| Domain.PMod3 | src/domain.ts:344-347 | componentwise `pMod1` in three dimensions |
| Domain.PMirror | src/domain.ts:364 | returns `sgn` of the old coordinate; the new one is `abs(p) - dist`, so it is at least `-dist`, and `p_in == s * (p_out + dist)` |
| Domain.PMirrorOctant | src/domain.ts:382-386 | returns `sgn2` of the old point; the new point is the larger and then the smaller of `abs(p.x) - dist.x` and `abs(p.y) - dist.y`, so `x >= y` |
| Domain.PReflect | src/domain.ts:405-409 | with `t = dot(p, n) + offset`: `t >= 0` leaves `p` and returns `+1`; `t < 0` returns `-1` and reflects `p` to `p - 2 t n`; for a unit normal the result is at distance `abs(t)` on the non-negative side |
| Domain.ReflectedDot | src/domain.ts:407 | `dot(p - 2 t n, n) == dot(p, n) - 2 t dot(n, n)` |
| Combination.UnionChamfer | src/combination.ts:124 | never above `min(a, b)`; equal to it or to the chamfer term |
| Combination.IntersectionChamfer | src/combination.ts:138 | never below `max(a, b)`; equal to it or to the chamfer term |
| Combination.DifferenceChamfer | src/combination.ts:150 | never below `max(a, -b)` |
| Combination.IntersectionChamferIsDual | src/combination.ts:124-138 | chamfer intersection is chamfer union of the negated distances, negated |
| Combination.DifferenceChamferIsDual | src/combination.ts:138-150 | chamfer difference is chamfer union of `-a` and `b`, negated |
| Combination.ChamferZeroRadiusBelowMin | src/combination.ts:124 | with exact `sqrt(0.5)`, radius 0 at `a = b = -1` gives exactly `-2 * sqrt(0.5)`, less than `min(a, b)` |
| Combination.IntersectionChamferZeroRadiusAboveMax | src/combination.ts:138 | with exact `sqrt(0.5)`, radius 0 at `a = b = 1` gives exactly `2 * sqrt(0.5)`, more than `max(a, b)` |
| Combination.UnionRound | src/combination.ts:164-165 | equals `min(a, b)` when `a >= r` and `b >= r`; never above `min(a, b)` for a Euclidean-like `length` |
| Combination.IntersectionRound | src/combination.ts:177-178 | equals `max(a, b)` when `a <= -r` and `b <= -r`; never below `max(a, b)` for a Euclidean-like `length` |
| Combination.DifferenceRound | src/combination.ts:188 | the same for `max(a, -b)` |
| Combination.IntersectionRoundIsDual | src/combination.ts:164-178 | round intersection is round union of the negated distances, negated |
| Combination.ColumnRadius | src/combination.ts:214-216 | the column radius is not 0 and solves `cr * ((n - 1) * 2 + SQRT2) == r * SQRT2` |
| Combination.UnionColumns | src/combination.ts:210-232 | never above `min(a, b)`, and exactly `min(a, b)` outside the band `a < r && b < r` |
| Combination.DifferenceColumns | src/combination.ts:255-282 | never below `max(a, -b)`, and exactly `max(a, -b)` outside the band `-a < r && b < r` |
| Combination.IntersectionColumns | src/combination.ts:298 | the difference with `-b`: never below `max(a, b)`, exactly `max(a, b)` outside the band |
| Combination.UnionStairs | src/combination.ts:319-329 | never above `min(a, b)`; at most `r/2` below it for `r >= 0`; equal to it where `abs(a - b) >= r` |
| Combination.IntersectionStairs | src/combination.ts:344 | the dual bounds against `max(a, b)` |
| Combination.DifferenceStairs | src/combination.ts:358 | the dual bounds against `max(a, -b)` |
| Combination.StairsBelowMinAtTie | src/combination.ts:319-329 | `fOpUnionStairs(1, 1, 0.4, 4) == 0.8` |
| Combination.UnionSoft | src/combination.ts:378-379 | for `r > 0`, between `min(a, b) - r/4` and `min(a, b)`; equal to `min(a, b)` where `abs(a - b) >= r`, and always for `r < 0` |
| Combination.SoftBlend | src/combination.ts:379 | the blend term `e * e * 0.25 / r` lies in `[0, r/4]` for `0 <= e <= r` |
| Combination.Pipe | src/combination.ts:397 | never below `-r`, and `-r` on the seam `a = b = 0`; at least `abs(a) - r` and `abs(b) - r` for a Euclidean-like `length` |
| Combination.Engrave | src/combination.ts:413 | never below `a`; with exact `sqrt(0.5)`, equal to `a` outside the object where `abs(b) >= a + r` |
| Combination.Groove | src/combination.ts:430 | never below `a`, at most `a + depth` for `depth >= 0`, and `a` where `thickness - abs(b) <= a` |
| Combination.Tongue | src/combination.ts:447 | never above `a`, at least `a - depth` for `depth >= 0`, and `a` where `abs(b) - thickness >= a` |
| Combination.TongueIsNegatedGroove | src/combination.ts:430-447 | the tongue is the groove cut into the complement, negated |
| Distance.Plane | src/distance.ts:113 | the origin is at `distanceFromOrigin` |
| Distance.PlaneAlongNormal | src/distance.ts:113 | for a unit normal, moving by `t` along it adds `t` |
| Distance.PlaneFoot | src/distance.ts:113 | for a unit normal, stepping back by the plane's value lands on the plane |
| Distance.BoxCheap | src/distance.ts:128 | at least every slab distance `abs(p_i) - b_i` and equal to one; not positive exactly inside the box; `vmax3(-b)` at the origin |
| Distance.Box2Cheap | src/distance.ts:167 | the two-dimensional analogue |
| Distance.Cylinder | src/distance.ts:244-246 | at least `abs(p.y) - height` and `length(p.xz) - r`, equal to one, and not positive exactly inside |
| Distance.Disc | src/distance.ts:332-333 | `abs(p.y)` over the disc (`length(p.xz) < r`); at least `abs(p.y)` and `length(p.xz) - r` for a Euclidean-like `length` |
| Distance.MaxAbsDot | src/distance.ts:514-521 | the accumulated maximum is non-negative, at least every `abs(dot(p, table[i]))` in the range, and 0 or one of them |
| Distance.MaxAbsDotAtOrigin | src/distance.ts:514-521 | at the origin the maximum is 0 |
| Distance.GDF | src/distance.ts:514-522 | the loop returns the maximum over `begin..end` minus `r`; so at least `-r` and at least every `abs(dot(p, table[i])) - r`; exactly `-r` at the origin and for an empty range |
| Distance.Octahedron | src/distance.ts:602 | the GDF over directions 3..6, at least `-r` |
| Distance.Dodecahedron | src/distance.ts:614 | the GDF over directions 13..18, at least `-r` |
| Distance.Icosahedron | src/distance.ts:626 | the GDF over directions 3..12, at least `-r` |
| Distance.TruncatedOctahedron | src/distance.ts:638 | the GDF over directions 0..6, at least `-r` |
| Distance.TruncatedIcosahedron | src/distance.ts:650 | the GDF over directions 3..18, at least `-r` |
| Distance.MaxAbsDotGrowsWithRange | src/distance.ts:602-650 | a wider index range never gives a smaller maximum, so each truncated solid lies within its base solid |

## Left out

- The construction of shader syntax trees (`defn`, `sym`, `ret`, `ifThen`, swizzles) is not modelled; only what the emitted code computes is.
- IEEE-754 floating point (rounding, NaN, Infinity) is not modelled: all arithmetic is over `real`.
- The divisions that would produce NaN or Infinity are preconditions instead:
  - `size != 0` in the repetition operators;
  - `repetitions != 0` in `pModPolar`;
  - `r != 0 && n != 0` in the Stairs operators;
  - `r != 0` in `fOpUnionSoft`;
  - a non-zero radius and column denominator inside the band of the Columns operators.
- `sqrt`, `length`, `atan`, `cos` and `sin` are uninterpreted. `SQRT2` and `TAU` are the exact rationals of their double-precision literals.
- `pR`, the general rotation by `cos`/`sin`, is not part of this model.
- Domain.PModPolar: no bound `abs(c) <= repetitions / 2` is stated, because the code does not keep one. An odd count reaches `(n + 1) / 2` where `atan` is exactly half a turn (`Domain.PolarOddTop`). For even counts the bound holds when `atan` is in `[-TAU/2, TAU/2]` (`Domain.PolarEvenFold`), and for odd ones when it is below half a turn (`Domain.PolarOddFold`).
- Domain.PModPolar: the rebuilt point is stated only through the abstract `cos`, `sin` and `length`.
- Combination.UnionColumns, Combination.DifferenceColumns and Combination.IntersectionColumns: inside the band only the bound against the plain operator is proved. The geometry of the columns (circle placement after rotation and repetition) is not. The unverified compensating x shift of `fOpDifferenceColumns` is modelled exactly as written.
- The Lipschitz-continuity and exact-distance claims of the combination operators are statements of continuous analysis about geometry and are not modelled.
- The contents of the GDF direction table (normalised vectors built from the golden ratio) need `normalize` and are not modelled. The table is an arbitrary 19-entry parameter.
- These primitives need exact lengths, square roots or `pow` and are not part of this model:
  - `fSphere`, `fBox`, `fBox2`, `fCorner`, `fBlob`, `fCone`, `fCapsule`, `fTorus`, `fCircle` and the hexagonal prisms;
  - `fGDFE` and all its `*E` polyhedra.
- Several exports share one GLSL name: `pModSingle1` is registered as `pMod1`, and `fGDFE` and its polyhedra reuse the names of the non-`E` versions. Each export is modelled as its own member, under its own name.
