# Rib cross-section metrics, modelled in Dafny

This project models the measurement core of `ribmetrics`. The program takes a
binary 3-D segmentation of a rib and cuts it with an oblique plane. It then
measures the cross-section and the rib:

- the **oblique plane** (`ObliquePlane`): a validating constructor that rejects a
  normal or point that is not a 3-vector and a zero normal, then stores the unit
  normal; the signed point–plane distance; orthogonal projection; and the offset
  `d` of the plane equation `a x + b y + c z + d = 0`;
- the **extreme costal points** (`compute_extreme_costal_points`): the contour
  points nearest to and farthest from the vertical axis through a centre. The
  centre is supplied or is the mean of x and of y. Candidates are the points
  within `tol` of the extreme radius. A tie is broken by taking the candidate at
  position ⌊k/2⌋ in ascending height;
- the **metric helpers**: rib width (distance between the two costal points),
  rib volume (sum of the voxels), surface area (sum of triangle areas over a
  mesh) and base diameter (largest pairwise distance);
- the **driver** (`main.py`): stop when the plane finds no cross-section;
  otherwise flatten the section's entities into one contour, compute the costal
  points and the width, keep the "inner band" of points whose radius is below
  the median radius, compute the base diameter only when that band is
  non-empty, then compute the volume and the surface area.

Floating-point numbers are exact `real`s. Points are `Geometry.Vec3`. A square
root cannot be defined here, so every norm takes the root as a parameter
`sqrt: real -> real`. The lemmas that depend on its meaning require
`Geometry.IsSqrt(sqrt)`: the root is non-negative and squares back to its
argument. `sqrt(y * y) == y` for non-negative `y` is proved from that. Products
and quotients of variable quantities are written `Geometry.Mul` and
`Geometry.Div`, so that later proofs can treat them linearly.

Files, one module each (plus `Results` for `Option`/`Result`):

- `geometry.dfy`: vector algebra, norms and distance (`Geometry`);
- `oblique_plane.dfy`: the plane (`ObliquePlane`);
- `ordering.dfy`: the numpy selections the core relies on (`np.max`, `np.min`,
  `np.where`, `np.argsort`, `np.median`, the maximum of a matrix) (`Ordering`);
- `sequences.dfy`: flattening and sums (`Sequences`);
- `costal_metrics.dfy`: everything in `costalMetrics.py` (`CostalMetrics`);
- `pipeline.dfy`: the driver (`Pipeline`).

Error paths are values. `ObliquePlane.New` returns `Failure(WrongShape)` or
`Failure(ZeroNormal)` where the constructor raises `ValueError`.
`CostalMetrics.ExtremeCostalPoints` returns `Failure(EmptyContour)` where
`np.max` of an empty array raises. It returns `Failure(NoCandidate)` where
indexing an empty candidate array raises, which happens exactly when
`tol <= 0`.

## Model

| member | source | states |
|---|---|---|
| `ObliquePlane.New` | ObliquePlane.py:10-24 | fails with `WrongShape` exactly when the normal or the point is not a 3-vector, and with `ZeroNormal` exactly when they are but the normal has length 0; on success the point is stored unchanged and the stored normal times the input normal's length gives back the input normal |
| `ObliquePlane.Normalize` | ObliquePlane.py:23 | dividing by a non-zero norm can be undone by scaling with it |
| `ObliquePlane.NewSucceeds` | ObliquePlane.py:18-22 | construction succeeds if and only if both inputs are 3-vectors and the normal is not the zero vector |
| `ObliquePlane.NewIsValid` | ObliquePlane.py:20-23 | a constructed plane's normal has length 1 |
| `ObliquePlane.NormalizedIsUnit` | ObliquePlane.py:23 | a vector divided by a root of its squared length has squared length 1 |
| `ObliquePlane.PointDistance` | ObliquePlane.py:26-37 | the plane's own reference point has signed distance 0 |
| `ObliquePlane.DistanceAlongNormal` | ObliquePlane.py:37 | with a unit normal, the point `k` along the normal from the reference point has signed distance exactly `k` |
| `ObliquePlane.Offset` | ObliquePlane.py:71 | for every point `x`, `normal·x + d` equals the signed distance of `x`, so `x` satisfies the plane equation exactly when it lies on the plane |
| `ObliquePlane.ProjectPoint` | ObliquePlane.py:39-51 | with a unit normal, the projected point lies on the plane (signed distance 0) |
| `ObliquePlane.ProjectionFixesPlanePoints` | ObliquePlane.py:50-51 | a point on the plane projects to itself |
| `ObliquePlane.ProjectionIdempotent` | ObliquePlane.py:50-51 | projecting twice gives the same point as projecting once |
| `Geometry.DistanceProperties` | costalMetrics.py:66 | Euclidean distance is non-negative, symmetric, and zero exactly between equal points |
| `Ordering.Max` | costalMetrics.py:30 | the maximum bounds every element and is one of them |
| `Ordering.Min` | costalMetrics.py:31 | the minimum is below every element and is one of them |
| `Ordering.IndicesWhere` | costalMetrics.py:34-35 | the selected positions are exactly the positions whose value passes the test, in strictly increasing order |
| `Ordering.IndicesWhereCount` | main.py:46 | the number of selected positions equals the number of passing values |
| `Ordering.Argsort` | costalMetrics.py:40 | the result is a permutation of `0..n-1` that lists the keys in ascending order |
| `Ordering.ArgsortCount` | costalMetrics.py:39-40 | any count taken over the sorted order equals the count over the keys |
| `Ordering.ArgsortRank` | costalMetrics.py:40 | the key at rank `k` of the sorted order has at most `k` keys strictly below it and more than `k` keys at or below it |
| `Ordering.Median` | main.py:45 | `np.median`: at most half of the values lie strictly below the median, and at least half lie at or below it |
| `Ordering.MatrixMaxIsLargestEntry` | costalMetrics.py:99 | the maximum of a matrix bounds every entry and is one of its entries |
| `Sequences.ConcatLength` | main.py:25-28 | the flattened sequence has as many elements as all inner sequences together |
| `Sequences.ConcatPosition` | main.py:26-27 | element `j` of entity `e` appears in the flattened sequence right after the elements of all earlier entities |
| `Sequences.ConcatMembership` | main.py:27 | a value is in the flattened sequence exactly when it is in one of the entities |
| `Sequences.BinarySum` | costalMetrics.py:70 | a 0/1 sum is the number of 1 entries; it lies between 0 and the length, equals the length exactly when all entries are 1 and is 0 exactly when all are 0 |
| `CostalMetrics.Center` | costalMetrics.py:21-25 | a supplied centre is used as given; otherwise the number of points times each coordinate of the centre is the sum of that coordinate, i.e. the centre is the mean of x and of y |
| `CostalMetrics.RadiusProperties` | costalMetrics.py:28 | the radius `Radius` of a point (each entry of `Radii`) is its distance to the axis point at its own height; it is non-negative and 0 exactly on the axis |
| `CostalMetrics.CenterIsCentroid` | costalMetrics.py:21-23 | with no centre supplied, the x offsets and the y offsets from the centre each sum to zero |
| `CostalMetrics.CandidatesNonEmpty` | costalMetrics.py:33-35 | a candidate set around an attained extreme is non-empty exactly when `tol > 0` |
| `CostalMetrics.OuterCandidates` | costalMetrics.py:34 | the outer candidates are valid contour positions, and there is at least one exactly when `tol > 0` |
| `CostalMetrics.InnerCandidates` | costalMetrics.py:35 | the inner candidates are valid contour positions, and there is at least one exactly when `tol > 0` |
| `CostalMetrics.TieBreak` | costalMetrics.py:38-42 | the chosen position is one of the candidates |
| `CostalMetrics.TieBreakIsMedianHeight` | costalMetrics.py:38-49 | the chosen candidate's height is element ⌊k/2⌋ of the candidates' heights in ascending order: at most ⌊k/2⌋ heights are lower and more than ⌊k/2⌋ are not higher |
| `CostalMetrics.SelectExtremes` | costalMetrics.py:34-50 | selection succeeds exactly when `tol > 0`, and then the inner and outer positions are inner and outer candidates |
| `CostalMetrics.ExtremeCostalPoints` | costalMetrics.py:4-55 | fails with `EmptyContour` exactly on an empty contour, and succeeds exactly when the contour is non-empty and `tol > 0` |
| `CostalMetrics.ExtremePointsBounds` | costalMetrics.py:28-53 | both returned points belong to the contour and their distances are their own radii; `max_r - tol < outer_distance <= max_r` and `min_r <= inner_distance < min_r + tol`; every contour radius lies strictly between `inner_distance - tol` and `outer_distance + tol` |
| `CostalMetrics.ExtremePointsTieBreak` | costalMetrics.py:38-50 | the outer point has the lower-median height among the outer candidates, and the inner point among the inner candidates |
| `CostalMetrics.SinglePointContour` | costalMetrics.py:34-50 | on a one-point contour the inner and outer points and their distances coincide |
| `CostalMetrics.RibWidthProperties` | costalMetrics.py:57-66 | `RibWidth` is non-negative, symmetric in its two points, and zero exactly when they are equal |
| `CostalMetrics.VolumeAdditive` | costalMetrics.py:68-70 | `Volume`, the sum of all voxels: the volume of two stacked blocks of slices is the sum of their volumes |
| `CostalMetrics.BinaryVolume` | costalMetrics.py:68-70 | for a 0/1 segmentation the volume is the number of 1 voxels; it lies between 0 and the voxel count, equals the voxel count exactly when every voxel is 1 and is 0 exactly when none is |
| `CostalMetrics.TriangleAreaNonNegative` | costalMetrics.py:84-85 | `TriangleArea`, half the length of the cross product of two edges, is non-negative |
| `CostalMetrics.DegenerateTriangle` | costalMetrics.py:84-85 | a triangle with a repeated corner has area 0, whichever two of its corners coincide |
| `CostalMetrics.TriangleAreaOrientation` | costalMetrics.py:84-85 | swapping the last two corners or the first two corners leaves the area unchanged; these two swaps generate every reordering of the corners |
| `CostalMetrics.SurfaceAreaProperties` | costalMetrics.py:84-86 | `SurfaceArea`, the sum of the face areas, is non-negative, and the area over two face lists is the sum of their areas |
| `CostalMetrics.DistanceMatrixProperties` | costalMetrics.py:97-98 | the pairwise distance matrix is symmetric with a zero diagonal, its entries are non-negative, and an entry is 0 exactly when its two points coincide |
| `CostalMetrics.BaseDiameter` | costalMetrics.py:88-99 | the base diameter is at least the distance of every pair of points and equals the distance of some pair |
| `CostalMetrics.BaseDiameterOfPoint` | costalMetrics.py:97-99 | the base diameter is non-negative, and 0 for a single point |
| `Pipeline.DriverPlaneIsValid` | main.py:17 | the driver's plane (normal (1, 1, 0) through (32, 32, 32)) is built without error and has a unit normal |
| `Pipeline.FlattenContour` | main.py:25-28 | the loop returns the concatenation of all entities' points in entity order |
| `Pipeline.InnerBandProperties` | main.py:42-46 | over the radii `ContourRadii` from the mean centre and the positions `InnerBandIndices`: every band point has radius strictly below the median radius, every such point is in the band, contour order is kept, and at most half the points are in the band |
| `Pipeline.InnerBandMembers` | main.py:42-46 | every point of the inner band is a contour point strictly nearer to the mean centre than the median radius, and every contour point that near is in the band |
| `Pipeline.InnerBandEmpty` | main.py:46-51 | the band is empty exactly when no radius is below the median, i.e. the smallest radius is at least the median |
| `Pipeline.Run` | main.py:14-58 | no section gives the "no cross section" outcome and nothing else does; with a section, metrics are reported exactly when the flattened contour is non-empty, otherwise the costal search fails on the empty contour; a report holds the costal points of the flattened contour (tolerance 0.001, mean centre), the width between them, a base diameter exactly when the inner band is non-empty, the volume and the surface area |

## Left out

- Marching cubes (costalMetrics.py:81, mesh.py:16) and building the triangle mesh (mesh.py:17) are library calls. The surface area takes the mesh's vertices and faces as inputs, and its `level` argument is not modelled.
- `get_cross_section` (ObliquePlane.py:53-67) delegates to the mesh library's `section`. The driver takes its result as an input: `None`, or the entities' point sequences.
- The driver as written never reaches the metrics when a section exists. main.py:26-28 extends `contour_points` with each entity's `points`, which are vertex indices, so `np.array(contour_points)` is one-dimensional. Its first use, `contour_points[:, 0]` at costalMetrics.py:22, then raises `IndexError`. `Pipeline.Run` models the evidently intended driver, in which the contour is the sequence of the entities' point coordinates. It does not model the failure of the driver as written.
- The undefined global `segmentation` in main.py:20 is a driver artefact. `Pipeline.Run` takes the segmentation as a parameter.
- Printing, `section.show()`, matplotlib (main.py:32-62) and the text of `__repr__` (ObliquePlane.py:69-73) are presentation. Only the plane offset `d` is modelled, as `ObliquePlane.Offset`.
- Floating-point rounding, NaN and infinities: all arithmetic is exact over `real`. The square root is a parameter constrained by `IsSqrt`, not a computed value.
- Shapes of numpy inputs: the contour is a sequence of 3-D points, and the plane constructor's shape check is modelled as a length check on flat sequences. Nested or non-numeric inputs are not modelled.
- `np.argsort` does not promise an order among equal heights. `Ordering.Argsort` is an insertion sort that keeps equal heights in index order. Every stated property speaks only of heights, not of which of several equal-height candidates is chosen.
- `int(np.sum(segmentation))`: voxels are modelled as integers, so the cast changes nothing. Float-valued segmentations are not modelled.
- A one-point inner band: main.py:47-48 computes the base diameter whenever the band is non-empty, so one point gives 0 (`CostalMetrics.BaseDiameterOfPoint`); `Pipeline.Run` does the same.
- `CostalMetrics.BaseDiameter`: requires a non-empty point set, so the `ValueError` that `np.max` raises in `compute_rib_base_diameter` on an empty array is not modelled. The only caller, main.py:47-48, never passes an empty band.
- `CostalMetrics.TieBreakIsMedianHeight`: characterises the chosen height by rank counts, not by naming the index numpy's sort would pick among equal heights.
