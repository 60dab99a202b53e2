# Voronoi cells, quadrant grid and Halton points — a Dafny model

This project models the computational core of a small Python toolkit that draws Voronoi
diagrams. The core has three parts.

- **Voronoi generator** (`voronoi_algorithm.py`, module `VoronoiAlgorithm`). It picks a
  bounding region: a padded rectangle around the sites, a 32-gon circle, a triangle, or a
  user-supplied polygon. It computes each site's cell by clipping that region against the
  perpendicular bisector of every other site, one Sutherland–Hodgman pass per site. Then
  it cleans each cell by rounding its vertices to two decimals and dropping repeats.
- **Quadrant grid** (`voronoi_to_delauney.py`, module `VoronoiToDelauney`). This is the
  start of a Delaunay construction. It scans all cell vertices for a bounding box, sizes
  square quadrants from the number of cells, and centres a grid of them on the box. It
  fills a table with `Quadrant` objects, each holding its side length, its midpoint and
  its neighbour positions.
- **Point generator** (`distributions.py`, module `Distributions`). It computes the Halton
  sequence (the radical inverse of an index in a base) and the 2-D Halton sample set in
  bases 2 and 3, scaled to the generator's ranges.

Shared modules:

- `Geometry` holds points, the half-plane test `f(x, y) = (x - mx)·nx + (y - my)·ny`, and
  linear interpolation.
- `Results` holds `Option` and `Result`.

The model follows the source's form:

- The loops of `clip_polygon`, `compute_voronoi_cell`, `remove_duplicate_vertices`,
  `halton_sequence` and `generate_quadrants` are Dafny methods with loop invariants. Each
  is proved against a specification function (`Clip`, `VoronoiCell`, `Cleaned`,
  `RadicalInverse`, `IsBoundingBox`, `Neighbours`).
- The class `quadrant`, whose list fields are filled in place, is a Dafny `class`.
- The grid is a fresh `array2<Quadrant?>`.
- Comprehensions and pure helpers are functions.
- The properties are lemmas about the specification functions.

Exceptions of the source are `Err` values:

- `ValueError` for an unknown shape name or a bad custom shape.
- `min()` of no points.
- `ZeroDivisionError` for the circle's centroid and for the grid's divisions.

Floats are exact reals throughout.

## Model

| member | source | states |
|---|---|---|
| Geometry.EvalLerp | voronoi_algorithm.py:59-60 | the half-plane test is affine: at parameter t along a segment it equals f(a) + t·(f(b) − f(a)) |
| Geometry.EvalBetween | voronoi_algorithm.py:59-60 | a point between two kept-side points is on the kept side |
| VoronoiAlgorithm.NewVoronoiGenerator | voronoi_algorithm.py:4-17 | points, padding and custom shape are stored unchanged; the shape name keeps its length and has each ASCII capital replaced by its lower-case letter |
| VoronoiAlgorithm.LowerNormalizes | voronoi_algorithm.py:16 | lower-casing keeps the length, leaves no capital letter and is idempotent |
| VoronoiAlgorithm.CrossingParameter | voronoi_algorithm.py:25 | when exactly one of f1, f2 is negative, f1 ≠ f2 and t = f1/(f1 − f2) lies in [0, 1] |
| VoronoiAlgorithm.ComputeIntersection | voronoi_algorithm.py:20-26 | equal test values return p2; otherwise the result is on the clipping line (f = 0); when the endpoints are on opposite sides it lies on the segment between them |
| VoronoiAlgorithm.ClipPolygon | voronoi_algorithm.py:29-48 | the loop returns exactly `Clip`: the edge-by-edge output over edges i → (i+1) mod n, [] for the empty polygon |
| VoronoiAlgorithm.ClipLengthBound | voronoi_algorithm.py:35-46 | each edge contributes at most two vertices, so the output has at most 2n |
| VoronoiAlgorithm.ClipAllOutside | voronoi_algorithm.py:37-46 | a polygon with every vertex outside clips to the empty polygon |
| VoronoiAlgorithm.ClipAllInside | voronoi_algorithm.py:39-40 | a polygon wholly inside comes back as the same vertices rotated by one |
| VoronoiAlgorithm.ClipKeptSide | voronoi_algorithm.py:37-46 | every output vertex satisfies f ≥ 0 |
| VoronoiAlgorithm.ClipPreservesHalfPlane | voronoi_algorithm.py:41-46 | clipping keeps any half-plane the input already lies in, since new vertices lie between old ones |
| VoronoiAlgorithm.BisectorSides | voronoi_algorithm.py:57-60 | the bisector test at v is half of the squared distance to q minus the squared distance to p |
| VoronoiAlgorithm.BisectorKeepsSite | voronoi_algorithm.py:57-60 | the site p itself is strictly on the kept side of its bisector with any other site |
| VoronoiAlgorithm.ComputeVoronoiCell | voronoi_algorithm.py:51-62 | the loop returns `VoronoiCell`: the region clipped by the bisector of each site in order, skipping p itself |
| VoronoiAlgorithm.CellEmptyStaysEmpty | voronoi_algorithm.py:53-61 | once the cell is empty it stays empty for the remaining sites |
| VoronoiAlgorithm.CellCloserToSite | voronoi_algorithm.py:51-62 | every vertex of p's cell lies on p's side of each bisector, so it is at least as close to p as to any site |
| VoronoiAlgorithm.Dedup | voronoi_algorithm.py:109-113 | the kept vertices have no repeats, are no more than the input, and are exactly the input's members |
| VoronoiAlgorithm.DedupFirstOccurrence | voronoi_algorithm.py:110-113 | kept vertices appear in the order of their first occurrence in the input |
| VoronoiAlgorithm.DedupOfDistinct | voronoi_algorithm.py:110-113 | a list without repeats is kept unchanged |
| VoronoiAlgorithm.RoundHalfEven | voronoi_algorithm.py:111 | the result is an integer within 1/2 of x, and the even one on a tie |
| VoronoiAlgorithm.Round2 | voronoi_algorithm.py:111 | round(v, 2) is within 0.005 of v and a whole number of hundredths |
| VoronoiAlgorithm.Round2Idempotent | voronoi_algorithm.py:111 | rounding a rounded value changes nothing |
| VoronoiAlgorithm.RemoveDuplicateVertices | voronoi_algorithm.py:107-114 | the loop returns `Cleaned`: the rounded vertices with repeats dropped at their first occurrence |
| VoronoiAlgorithm.CleanedProperties | voronoi_algorithm.py:107-114 | the cleaned cell has no repeats and is no longer than the input; its vertices are exactly the rounded input vertices, in order of first occurrence |
| VoronoiAlgorithm.CleanedIdempotent | voronoi_algorithm.py:107-114 | cleaning a cleaned cell gives the same cell |
| VoronoiAlgorithm.MinOf | voronoi_algorithm.py:69-70 | min() returns an element of the sequence that is at most every element |
| VoronoiAlgorithm.MaxOf | voronoi_algorithm.py:69-70 | max() returns an element of the sequence that is at least every element |
| VoronoiAlgorithm.RectangleContainsSites | voronoi_algorithm.py:68-71 | the padded rectangle is axis-aligned with corners in counter-clockwise order and contains every site when padding ≥ 0 |
| VoronoiAlgorithm.VoronoiCells | voronoi_algorithm.py:65-104 | see the list below the table |
| VoronoiAlgorithm.DictionaryToList | voronoi_algorithm.py:117-122 | one cleaned vertex list per dictionary entry, in the same order, each without repeats and no longer than its cell |
| VoronoiToDelauney.Quadrant.constructor | voronoi_to_delauney.py:7-20 | a positive length is stored, any other becomes 0; a missing midpoint becomes (0, 0); both lists start empty |
| VoronoiToDelauney.BoundingBox | voronoi_to_delauney.py:33-51 | the scan's box contains the origin and every vertex, and each side is 0 or some vertex's coordinate |
| VoronoiToDelauney.BoundingBoxUnique | voronoi_to_delauney.py:33-51 | those conditions determine the box: any two boxes meeting them are equal |
| VoronoiToDelauney.RoundSqrt | voronoi_to_delauney.py:55 | round(sqrt(n)) is 0 exactly for n = 0, and otherwise the k with k² − k < n ≤ k² + k |
| VoronoiToDelauney.RoundSqrtNearest | voronoi_to_delauney.py:55 | that k is the nearest integer to √n: (k − ½)² < n < (k + ½)² |
| VoronoiToDelauney.Ceil | voronoi_to_delauney.py:57-58 | ceil(x) is the integer c with x ≤ c < x + 1 |
| VoronoiToDelauney.MinReal | voronoi_to_delauney.py:55 | min of two values is one of them and at most both |
| VoronoiToDelauney.GridFor | voronoi_to_delauney.py:57-65 | see the list below the table |
| VoronoiToDelauney.ComputeLayout | voronoi_to_delauney.py:54-65 | ZeroDivision exactly when there are no cells or the box is flat in x or y; otherwise the side is 2·min(width, height)/round(√n) and the layout is `GridFor` of it |
| VoronoiToDelauney.MidPointsMirror | voronoi_to_delauney.py:61-73 | the quadrant midpoints are mirror-symmetric about the box centre: the midpoints of row r and row rows − 1 − r (and likewise for columns) sum to min + max of the box |
| VoronoiToDelauney.MidPointInjective | voronoi_to_delauney.py:71-76 | different positions have different midpoints |
| VoronoiToDelauney.NeighboursSpec | voronoi_to_delauney.py:78-87 | see the list below the table |
| VoronoiToDelauney.NeighboursReachPastGrid | voronoi_to_delauney.py:82 | because the bounds are inclusive, the last quadrant lists (rows, cols − 1) and (rows − 1, cols), which are outside the grid |
| VoronoiToDelauney.NeighboursInsideAwayFromEdge | voronoi_to_delauney.py:79-87 | away from the last row and column every listed neighbour lies inside the grid |
| VoronoiToDelauney.NewQuadrant | voronoi_to_delauney.py:71-87 | a fresh quadrant with the grid's side, the midpoint of (row, col), the neighbour list `Neighbours` and no contained points |
| VoronoiToDelauney.FillGrid | voronoi_to_delauney.py:68-76 | a fresh rows-by-cols table whose every entry is such a fresh quadrant, pairwise distinct |
| VoronoiToDelauney.BuiltDistinct | voronoi_to_delauney.py:68-76 | a filled table holds a different quadrant at every position |
| VoronoiToDelauney.GenerateQuadrants | voronoi_to_delauney.py:32-89 | see the list below the table |
| Distributions.DigitSumBounds | distributions.py:32-35 | the weighted digit sum lies in [0, w·b) and is 0 exactly for index 0 |
| Distributions.RadicalInverseBounds | distributions.py:28-36 | the Halton value lies in [0, 1) and is 0 exactly for index 0 |
| Distributions.SingleDigit | distributions.py:28-36 | an index 0 < n < b has Halton value n / b |
| Distributions.DigitSumInjective | distributions.py:32-35 | distinct indices have distinct digit sums |
| Distributions.RadicalInverseInjective | distributions.py:28-36 | distinct indices have distinct Halton values in the same base |
| Distributions.HaltonSequence | distributions.py:28-36 | the loop returns the radical inverse of the index (0 for an index ≤ 0), a value in [0, 1) |
| Distributions.HaltonSamples | distributions.py:39-42 | max(numPoints, 0) points; point i is index i + 1 in base 2 scaled by xRange and in base 3 scaled by yRange |
| Distributions.Scale | distributions.py:41-42 | a value in [0, 1) times a range ≥ 0 lies in [0, range], strictly below a positive range |
| Distributions.ScaleInjective | distributions.py:41-42 | scaling by a non-zero range keeps distinct values distinct |
| Distributions.HaltonPointInRange | distributions.py:41-42 | with non-negative ranges each sample lies in [0, xRange] × [0, yRange] |
| Distributions.HaltonSamplesInRange | distributions.py:39-42 | every sample of the set lies in the ranges |
| Distributions.HaltonFirstSample | distributions.py:41-42 | the first sample is (xRange/2, yRange/3) |
| Distributions.HaltonSamplesDistinct | distributions.py:39-42 | with a non-zero xRange the samples have pairwise distinct x coordinates |

What `VoronoiAlgorithm.VoronoiCells` states:

- An unknown shape name gives UnsupportedShape.
- "custom" fails exactly when the shape is missing or has under 3 points.
- "rectangle" and "triangle" fail (min of nothing) exactly when there are no sites.
- "circle" gives ZeroDivision exactly when there are no sites.
- On success the entries are the distinct sites in first-occurrence order, each paired
  with its `VoronoiCell` over the chosen region.

What `VoronoiToDelauney.GridFor` states:

- The grid has at least one row and one column.
- It covers the box, with less than one side of slack on each axis.
- It is centred on the box.

What `VoronoiToDelauney.NeighboursSpec` states:

- (i, j) is listed exactly when it lies in the 3×3 block around (r, c) with
  0 ≤ i ≤ rows, 0 ≤ j ≤ cols and (i, j) ≠ (r, c).
- The list is in strictly increasing row-major order, so it has no repeats.
- It has at most 8 entries.

What `VoronoiToDelauney.GenerateQuadrants` states:

- The box is the bounding box of the vertices.
- ZeroDivision exactly when `ComputeLayout` fails.
- Otherwise the result is a fresh table of the layout's size, filled by `FillGrid`.

## Left out

- Circle region: the 32-gon of `voronoi_algorithm.py:73-83` uses `np.cos`, `np.sin` and
  `np.linalg.norm`. `BoundingRegion` and `VoronoiCells` take it as the parameter `circleRegion`.
  Only the empty-sites division by zero is modelled.
- Clipping callable: `compute_intersection` and `clip_polygon` (`voronoi_algorithm.py:20, 29`)
  accept any function `f`. The model fixes `f` to the affine half-plane test `HalfPlane`, which
  is the only kind the source passes (`voronoi_algorithm.py:59-61`). `ComputeIntersection`'s
  "f = 0 at the intersection" and the clipping lemmas rely on that affinity.
- Floating point: all coordinates are exact reals. `round(v, 2)` is modelled as exact
  round-half-even of 100·v divided by 100. Binary-float representation error is not modelled.
- Lower-casing: `str.lower()` is modelled for ASCII letters only; Unicode case mapping is not.
- `fibonacci_spiral` (`distributions.py:12-25`) is left out: it uses square roots and trigonometry.
- `poisson_disk_samples` and `random_distribution` (`distributions.py:45-57`) are left out:
  they draw from a random source.
- HaltonSequence: requires base ≥ 2. With base 1 the source loops forever on a positive
  index, base 0 divides by zero, and negative bases are not modelled. The source only calls
  it with bases 2 and 3.
- The `point` class (`voronoi_to_delauney.py:25-28`) assigns only locals and is not used.
- The commented-out plan after `generate_quadrants` (`voronoi_to_delauney.py:92-111`) is not code.
- The numpy object array is modelled as `array2<Quadrant?>`. numpy's row view `quadrants[r][c]`
  is modelled as direct indexing.
- `containedPoints` is never filled by the source, so it stays empty in the model.
- The inclusive neighbour bounds at `voronoi_to_delauney.py:82` are modelled as written.
  `NeighboursReachPastGrid` exhibits the positions outside the grid that they admit.
- Plotting, turtle graphics and the scripts that wire these modules together are not part
  of this model: `plot_voronoi.py`, `plotting.py`, `turtle plotting.py`, `voronoi_cells.py`,
  `honeycomb.py`, `quadcircles.py` and `generalisedsimultaneousturtles.py`.
