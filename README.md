# Bowyer–Watson Delaunay triangulation, modelled in Dafny

This project models the header-only C++ Delaunay triangulator `Delaunay<T, Tdata>`.
Its `triangulate` inserts points one at a time. For each point it:

- collects the triangles whose circumcircle contains the point (the "bad" triangles) and their edges (the "polygon");
- erases the bad triangles;
- cancels the polygon edges that occur more than once;
- fans the remaining boundary edges out to the point.

It starts from a super triangle built around the points' bounding box and drops every triangle that touches it at the end. The query layer (`interpolateValue`, `createGridInterpolation`) looks up the first triangle that contains a query point and fills a row-major grid with the results.

Modules follow the headers:

- `Points` covers `vector2.h`.
  - The datatype `Point` is a point as every container copies it.
  - The class `Vector2` covers the constructors and `set`, which assign fields.
- `Edges` covers `edge.h`.
- `Triangles` covers `triangle.h`.
  - It has the equality predicates, `containsVertex` and the exact sign test `isEncircling`.
  - It also has `circumCircleContains` over exact reals.
- `SeqFilter` is the `erase(remove_if(...))` idiom as an order-preserving filter.
- `BowyerWatson` holds the functions that specify each list step of `triangulate`, and the lemmas about them.
- `Interpolation` specifies the first-match lookup and the row-major grid.
- `DelaunayTriangulator` holds the class `Delaunay`.
  - Its fields `triangles`, `edges`, `vertices` and `notFoundReturn` are updated step by step by methods with loops.
  - Each method is proved against the functions of `BowyerWatson` and `Interpolation`.

Model choices:

- Coordinates are exact `real`s.
- The payload `Tdata` is a type parameter `D`.
- The circumcircle test used by `triangulate` is a parameter `inCircle`, so the cavity, cancellation and insertion logic holds for any test. `Triangles.CircumCircleContains` is the exact-real version of the source's test, and properties are proved about it on its own.
- The inverse-distance weighting of `interpolateValue` is a parameter `weigh`.

## Model

| member | source | states |
|---|---|---|
| Points.PointEqIsSameLoc | vector2.h:78-81 | two points are equal exactly when their (x, y) locations are equal |
| Points.PointEqIgnoresValue | vector2.h:78-81 | points that differ only in their payload compare equal |
| Points.PointEqIsEquivalence | vector2.h:78-81 | over exact coordinates, point equality is reflexive, symmetric and transitive |
| Points.Dist2 | vector2.h:51-56 | the squared distance is never negative |
| Points.Dist2Symmetric | vector2.h:51-56 | dist2(a, b) == dist2(b, a) |
| Points.Dist2ZeroAtEqualPoints | vector2.h:51-56 | the squared distance between equal points, and from a point to itself, is zero |
| Points.Vector2.Origin | vector2.h:15-19 | the default constructor gives (0, 0) and leaves the payload unset |
| Points.Vector2.FromXY | vector2.h:21-25 | the two-coordinate constructor sets x and y and leaves the payload unset |
| Points.Vector2.FromXYValue | vector2.h:27-32 | the three-argument constructor sets x, y and the payload |
| Points.Vector2.Copy | vector2.h:34-39 | the copy compares equal to its source and has the same payload |
| Points.Vector2.Set | vector2.h:41-46 | set(v) makes all three fields equal to v's and leaves v as it was, also when v is the object itself |
| Edges.EdgeEqIsSameEnds | edge.h:26-30 | two edges are equal exactly when their unordered sets of endpoint locations are equal |
| Edges.EdgeEqReversed | edge.h:26-30 | Edge(a, b) == Edge(b, a) for all points a, b |
| Edges.EdgeEqIsEquivalence | edge.h:26-30 | edge equality is reflexive, symmetric and transitive |
| Edges.EdgeEqIgnoresPayloads | edge.h:26-30 | replacing the endpoint payloads never changes edge equality |
| Points.PointEq | vector2.h:78-81 | definition: operator== compares x and y only |
| Edges.EdgeEq | edge.h:26-30 | definition: the endpoints match in the same or in the reversed orientation, under point equality |
| Triangles.ContainsVertex | triangle.h:22-25 | definition: v equals p1, p2 or p3 under point equality |
| Triangles.TriEq | triangle.h:71-77 | definition: each vertex of t1 equals some vertex of t2 |
| Triangles.IsEncircling | triangle.h:42-54 | definition: D, s and t as the source computes them, with the D < 0 branch and the other branch, both inclusive |
| Triangles.CircumCenter | triangle.h:29-34 | definition: the center coordinates as the two quotients of the source, over exact reals |
| Triangles.CircumCircleContains | triangle.h:27-39 | definition: v is no farther from the center than p1 |
| Triangles.DerivedEdgesFormCycle | triangle.h:17-20 | the derived edges are e1 = (p1, p2), e2 = (p2, p3) and e3 = (p3, p1), each starting where the previous one ends, and together they touch exactly the three corners |
| Triangles.ContainsVertexIsCorner | triangle.h:22-25 | containsVertex(v) holds exactly when v's location is one of the three corners |
| Triangles.TriEqIsCornerInclusion | triangle.h:71-77 | t1 == t2 exactly when t1's corner set is included in t2's |
| Triangles.TriEqIgnoresLabelling | triangle.h:71-77 | any of the six relabellings of either triangle leaves operator== unchanged |
| Triangles.TriEqReflexive | triangle.h:71-77 | every triangle equals itself |
| Triangles.TriEqSymmetricOnDistinct | triangle.h:71-77 | for triangles with pairwise-distinct vertices, t1 == t2 implies t2 == t1 and equal corner sets |
| Triangles.TriEqAsymmetricOnDegenerate | triangle.h:71-77 | a triangle with two coincident vertices equals a proper triangle that is not equal to it |
| Triangles.EncirclesOwnVertices | triangle.h:42-54 | each of a triangle's three vertices passes isEncircling, for either winding |
| Triangles.EncirclingIgnoresSwap | triangle.h:44-53 | swapping p1 and p2 never changes isEncircling |
| Triangles.EncirclingIsClosedTriangle | triangle.h:42-54 | for a triangle of non-zero area, isEncircling holds exactly at the convex combinations of its vertices |
| Triangles.Barycentric | triangle.h:42-54 | a point that passes the test is the convex combination with weights s/D and t/D |
| Triangles.CombinationIsEncircled | triangle.h:42-54 | every convex combination of the vertices passes the test |
| Triangles.CircumCenterIsEquidistant | triangle.h:27-39 | the computed center is equidistant from the three vertices, so circumCircleContains holds at p1, p2 and p3 |
| SeqFilter.Filter | delaunay.h:82-92 | the erase never grows the list; it keeps only accepted elements and keeps every accepted one |
| SeqFilter.FilterIsOrderedSelection | delaunay.h:82-92 | the result is the input read at the strictly increasing positions of exactly the accepted elements |
| SeqFilter.FilterSplitsLength | delaunay.h:82-92 | kept plus removed elements are as many as the input |
| BowyerWatson.Widen | delaunay.h:35-38 | definition: one pass of the scan moves each bound out to the point when it lies beyond |
| BowyerWatson.ScanBox | delaunay.h:28-39 | definition: the bounds start at the first point and take one pass per point |
| BowyerWatson.BoundingBox | delaunay.h:28-39 | definition: the bounds after the whole scan |
| BowyerWatson.SuperTriangle | delaunay.h:41-49 | definition: deltaMax = max(dx, dy), the midpoint, and the vertices (midx - 20·deltaMax, midy - deltaMax), (midx, midy + 20·deltaMax), (midx + 20·deltaMax, midy - deltaMax) |
| BowyerWatson.BadTriangles | delaunay.h:64-80 | definition: the triangles passing the circumcircle test, in list order |
| BowyerWatson.EdgesOf | delaunay.h:72-74 | definition: e1, e2, e3 of each triangle, triangle after triangle |
| BowyerWatson.RemoveBad | delaunay.h:82-92 | definition: the triangles no bad triangle equals, in order |
| BowyerWatson.SharedEdges | delaunay.h:94-108 | definition: for each ordered pair of distinct indices with equal edges, both edges, in loop order |
| BowyerWatson.Boundary | delaunay.h:110-117 | definition: the polygon edges no entry of badEdges equals, in order |
| BowyerWatson.Fan | delaunay.h:119-120 | definition: the triangle (e.p1, e.p2, p) for each polygon edge e, in order |
| BowyerWatson.InsertPoint | delaunay.h:61-120 | definition: the erase of the bad triangles followed by the fan of the boundary of their edges |
| BowyerWatson.InsertAll | delaunay.h:56-122 | definition: one insertion step per point, in input order |
| BowyerWatson.DropSuper | delaunay.h:124-126 | definition: the triangles containing none of the three super-triangle vertices, in order |
| BowyerWatson.Triangulation | delaunay.h:22-136 | definition: the super triangle appended to the prior list, all insertions, then the final erase |
| BowyerWatson.ScanBoxBounds | delaunay.h:28-39 | after n passes the four bounds enclose the first point and every scanned point, and once a pass has run each bound is the coordinate of a scanned point |
| BowyerWatson.BoundingBoxIsTight | delaunay.h:28-39 | every input point lies in the box and each bound is some input point's coordinate |
| BowyerWatson.SuperTriangleEnclosesBox | delaunay.h:41-49 | every point of the box passes isEncircling on the super triangle |
| BowyerWatson.SuperTriangleEnclosesInput | delaunay.h:28-49 | the super triangle built from the points' box encircles every input point |
| BowyerWatson.EdgesOfLayout | delaunay.h:72-74 | the polygon has 3 edges per bad triangle, and entries 3i, 3i+1, 3i+2 are triangle i's e1, e2, e3 |
| BowyerWatson.EdgesOfSnoc | delaunay.h:128-133 | one more triangle appends exactly its three edges |
| BowyerWatson.RemoveBadKeepsTheRest | delaunay.h:82-92 | no survivor equals a bad triangle; every other triangle is kept, in its original order, and nothing else |
| BowyerWatson.CavityCleared | delaunay.h:61-92 | after the erase, no remaining triangle's circumcircle contains the inserted point |
| BowyerWatson.PairRowMembers | delaunay.h:97-107 | one pass of the inner loop pushes exactly the pairs p[i], p[j] with j != i and p[i] == p[j] |
| BowyerWatson.SharedEdgesMembers | delaunay.h:94-108 | the nested loop pushes exactly the members of equal pairs at distinct indices |
| BowyerWatson.UnsharedIffNoTwin | delaunay.h:94-117 | polygon[k] survives cancellation exactly when no other index holds an equal edge |
| BowyerWatson.BoundaryKeepsUniqueEdges | delaunay.h:94-117 | cancellation keeps exactly the edges without a twin, in their original order |
| BowyerWatson.FanShape | delaunay.h:119-120 | one new triangle per boundary edge; the i-th is (polygon[i].p1, polygon[i].p2, p) and contains p |
| BowyerWatson.FanSnoc | delaunay.h:119-120 | one more boundary edge appends exactly one triangle |
| BowyerWatson.InsertPointCount | delaunay.h:61-120 | removed ≥ bad; boundary ≤ 3·bad; new count + removed == old count + boundary |
| BowyerWatson.InsertAllStep | delaunay.h:56-122 | inserting one more point of the input is one more insertion step |
| BowyerWatson.DropSuperKeepsTheRest | delaunay.h:124-126 | no survivor contains a super-triangle vertex; all other triangles are kept in order |
| BowyerWatson.InsertPointCornersIn | delaunay.h:61-120 | an insertion step creates no vertex other than the inserted point and the existing corners |
| BowyerWatson.InsertAllCornersIn | delaunay.h:56-122 | the loop over the points only uses input points and existing corners |
| BowyerWatson.TriangulationUsesInputVertices | delaunay.h:22-136 | every vertex of the result is an input point or a vertex of the triangles held before the call |
| Interpolation.Interpolated | delaunay.h:145-182 | definition: the weighting of the first encircling triangle, or the fallback when there is none |
| Interpolation.GridStep | delaunay.h:196 | definition: mult = (grid_max - grid_min) / (grid_size - 1) |
| Interpolation.GridCoord | delaunay.h:201-205 | definition: grid line i sits at grid_min + i·mult |
| Interpolation.FirstEncircling | delaunay.h:147-150 | none exactly when no triangle encircles the point; otherwise the index of one that does, with none before it |
| Interpolation.FirstEncirclingIs | delaunay.h:147-150 | an encircling position with no encircling one before it is the one found |
| Interpolation.InterpolatedCases | delaunay.h:145-181 | the fallback value when no triangle encircles the point, else the weighting of the first that does |
| Interpolation.OnlyFirstMatchMatters | delaunay.h:145-181 | lists that agree up to the first encircling triangle give the same value |
| Interpolation.GridSpansRange | delaunay.h:196-205 | grid line 0 is grid_min and grid line n-1 is grid_max |
| Interpolation.RowMajorIndex | delaunay.h:202-205 | the cell index of row y and column x lies inside the n*n buffer |
| Interpolation.RowMajor | delaunay.h:202-205 | the index is y*n + x, and the row and column are read back from it, so no two cells share an index |
| Interpolation.RowsBefore | delaunay.h:199-206 | row y fits in the buffer, and all earlier rows lie below y*n |
| Interpolation.RowMajorCovers | delaunay.h:194-206 | every buffer index is the cell of some row and column below n |
| DelaunayTriangulator.ScanBounds | delaunay.h:28-39 | the loop computes the bounding box: every point inside, every bound attained |
| DelaunayTriangulator.MakeSuperTriangle | delaunay.h:41-49 | the three vertices are the super triangle of the box |
| DelaunayTriangulator.MatchesAnyTriangle | delaunay.h:82-92 | the lambda answers true exactly when some bad triangle equals t |
| DelaunayTriangulator.MatchesAnyEdge | delaunay.h:110-117 | the lambda answers true exactly when some entry of badEdges equals e |
| DelaunayTriangulator.CollectSharedEdges | delaunay.h:94-108 | the nested loop builds exactly the shared-edge list |
| DelaunayTriangulator.CancelSharedEdges | delaunay.h:94-117 | the loops and erase leave exactly the boundary (the edges without a twin) |
| DelaunayTriangulator.Delaunay.constructor | delaunay.h:217-222 | a new triangulator holds three empty lists |
| DelaunayTriangulator.Delaunay.Triangulate | delaunay.h:22-136 | the state after triangulate: vertices are the input; triangles are the prior list with the super triangle appended, put through every insertion step and the final erase of triangles that touch the super triangle, so prior triangles may be erased too; edges grow by the flattening and are never cleared; the fallback is untouched |
| DelaunayTriangulator.Delaunay.InsertVertices | delaunay.h:56-122 | the loop performs one insertion step per point, in order |
| DelaunayTriangulator.Delaunay.InsertVertex | delaunay.h:61-120 | one pass yields the erase of the bad triangles followed by the fan of the boundary |
| DelaunayTriangulator.Delaunay.AppendFan | delaunay.h:119-120 | one new triangle per polygon edge is pushed at the back |
| DelaunayTriangulator.Delaunay.CollectBad | delaunay.h:61-80 | the scan leaves triangles alone and returns the bad triangles (each in the list, each with the point in its circumcircle), in list order, and their 3·bad edges |
| DelaunayTriangulator.Delaunay.RemoveBadTriangles | delaunay.h:82-92 | the erase removes exactly the triangles equal to a bad one |
| DelaunayTriangulator.Delaunay.RemoveSuperTriangle | delaunay.h:124-126 | the erase removes exactly the triangles touching a super-triangle vertex |
| DelaunayTriangulator.Delaunay.FlattenEdges | delaunay.h:128-133 | _edges grows by e1, e2, e3 of every final triangle, without being cleared |
| DelaunayTriangulator.Delaunay.SetNotFoundReturn | delaunay.h:139-142 | the fallback value becomes data |
| DelaunayTriangulator.Delaunay.InterpolateValue | delaunay.h:145-182 | the loop with early return yields the weighting of the first encircling triangle, or the fallback |
| DelaunayTriangulator.Delaunay.InterpolateAt | delaunay.h:185-188 | the same lookup at the point's coordinates |
| DelaunayTriangulator.Delaunay.CreateGridInterpolation | delaunay.h:191-210 | a fresh n*n buffer whose cell y*n + x holds the lookup at (grid_min + x·mult, grid_min + y·mult) |
| DelaunayTriangulator.Delaunay.CreateDefaultGridInterpolation | delaunay.h:191-192 | with the default arguments, a fresh 2048·2048 buffer over [0, 1] holding the same lookups |
| DelaunayTriangulator.Delaunay.FillRow | delaunay.h:203-206 | the inner loop writes cell y_offset + x with the lookup at (grid_min + x·mult, ypos) and leaves every cell outside the row as it was |
| DelaunayTriangulator.Delaunay.GetTriangles | delaunay.h:213 | returns the triangle list |
| DelaunayTriangulator.Delaunay.GetEdges | delaunay.h:214 | returns the edge list |
| DelaunayTriangulator.Delaunay.GetVertices | delaunay.h:215 | returns the stored input points |

## Left out

- Floating point is not modelled; coordinates are exact reals.
  - This covers `float` rounding, the float/double mix, `sqrtf`, and NaN or infinity from collinear triangles or from a query exactly at a vertex.
  - `dist` (vector2.h:58-61) is left out because it is a square root of `dist2`.
- Triangles.CircumCircleContains: requires a non-zero denominator. The source divides by it and then compares square roots; the model compares the two squared distances, which order the same way.
- The circumcircle test inside `triangulate` is the parameter `inCircle`. Every property of the insertion steps holds for any such test, so none depends on the geometry.
- The inverse-distance weighting (delaunay.h:152-178) is the parameter `weigh`, because it is floating-point arithmetic on square roots.
- Global Delaunay properties are not proved: the empty-circumcircle property, the triangle count and manifoldness. They depend on the geometry of the circumcircle test and the float predicate.
- DelaunayTriangulator.Delaunay.CreateGridInterpolation: requires `n != 1` and `n*n < 2^32`. It therefore does not model the `uint32_t` overflow of `grid_size * grid_size` or the division by zero at `grid_size == 1`. `grid_size == 0` is modelled: the buffer is empty, as in the source.
- DelaunayTriangulator.Delaunay.CreateGridInterpolation: fills rows one after another. The source uses `#pragma omp parallel for`, but every cell is written once, independently of the others.
- DelaunayTriangulator.Delaunay.CreateGridInterpolation: returns a fresh array in place of the `std::shared_ptr` to a vector.
- DelaunayTriangulator.Delaunay.Triangulate: requires a non-empty input. The code reads `vertices[0]` and needs no more than one point. The wider requirement of three distinct points, which the code never checks, is not imposed.
- DelaunayTriangulator.Delaunay.Triangulate: the super-triangle payloads are whatever the two-coordinate constructor leaves in `value`. The postcondition names them through the returned ghost super triangle and states nothing else about them.
- DelaunayTriangulator.Delaunay.CreateGridInterpolation: the default arguments of the source (`grid_size = 2048`, `grid_min = 0.0`, `grid_max = 1.0`) are not defaults of this method. `CreateDefaultGridInterpolation` is the call without arguments, and no method covers the calls that give only some of them.
- DelaunayTriangulator.Delaunay.Triangulate: the source returns a const reference to `_triangles`, and `getTriangles`, `getEdges` and `getVertices` return const references to their lists. The model returns value copies, so a result the caller keeps does not follow later calls on the object the way the reference does.
- `erase(remove_if(...))` is modelled as building the list of survivors and assigning it back. `remove_if`'s in-place shuffling of the vector is not modelled.
- The edge constructors (edge.h:12-13) are the datatype constructor `Edge` and value copying. The triangle's stored edges are derived from its vertices, as they are in the constructor.
- `operator<<` (vector2.h:71-75, edge.h:19-23, triangle.h:64-69) is left out because it is debug output.
- main.cpp is not part of this model: point generation, drawing and the window loop are demo code.
