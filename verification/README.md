# pseudo_3d raycaster in Dafny

A model of the core of a terminal raycaster. The player stands on a flat map of
closed polygons. For every screen column, a ray is cast from the player. The
nearest wall it hits determines the height of the wall band painted in that
column. A column is drawn with the edge glyph when the previous column hit a
wall and its wall differs from that one.

The project has four modules:

- `Wrappers` (`wrappers.dfy`) holds `Option`. It stands for the renderer's
  `shared_ptr<Point>`, which may be null.
- `Geom` (`geom.dfy`) is the geometry kernel:
  - the tolerant comparison `LessOrEqual`;
  - points, vectors, `Shift` and `DotProduct`;
  - lines in general form A·x + B·y + C = 0 through two points;
  - Cramer's-rule line intersection;
  - segment/line intersection, clipped to the segment's bounding box widened by EPS.
- `Raycast` (`raycast.dfy`) covers:
  - the player and its moves;
  - the distance-to-height projection `CalcHeight`;
  - the nearest-wall search over every wall of every polygon;
  - edge detection;
  - the sweep over the columns that paints each one.
- `Screen` (`screen.dfy`) covers the screen grid of glyph codes and the column
  painter `DrawColumn`.

Exact reals stand in for `double`. Some things are parameters rather than
computed:

- **Ray direction per column.** The direction of each column's ray is an input.
  The original produces it by repeated trigonometric rotation.
- **Rotation in `Turn`.** It is a function parameter.

The search compares squared distances (`LenSq`) instead of lengths. A column's
height is computed from the squared distance by `HeightFromSq`, and
`HeightFromSqMatches` proves that this equals `CalcHeight` of the distance.

## Model

| member | source | states |
|---|---|---|
| Geom.LessOrEqual | geom.h:11-13 | The tolerant comparison: true when lhs < rhs + EPS. |
| Geom.VectorFromTo | geom.h:36-39 | The vector from a to b: (b.x − a.x, b.y − a.y). |
| Geom.Shift | geom.h:46-48 | The point p moved by the vector. |
| Geom.DotProduct | geom.h:61-63 | lhs.x·rhs.x + lhs.y·rhs.y. |
| Geom.GetLine | geom.h:100-102 | The line through the segment's two endpoints. |
| Geom.IsPointOnSegment | geom.h:108-114 | The four tolerant checks of the point against the min and max of the endpoints' x and y. |
| Geom.LessOrEqualTolerance | geom.h:9-13 | `LessOrEqual(l, r)` holds iff l − r < EPS. It is therefore reflexive, true whenever l ≤ r, and false once l ≥ r + EPS. |
| Geom.LenSq | geom.h:50-52 | The squared length of a vector is never negative. |
| Geom.ShiftUndoesVectorFromTo | geom.h:36-48 | Shifting a by the vector from a to b gives b. |
| Geom.VectorFromToUndoesShift | geom.h:36-48 | The vector from a to a shifted by v is v. |
| Geom.DotProductSymmetric | geom.h:61-63 | The dot product does not depend on argument order. |
| Geom.LineThrough | geom.h:73-77 | Both defining points satisfy the line equation. (A, B) is (0, 0) exactly when the two points coincide, and then C is 0 as well. |
| Geom.CramerSolves | geom.h:79-84 | When the determinant is non-zero, the Cramer's-rule point satisfies both line equations. |
| Geom.LineIntersection | geom.h:79-84 | A point is returned exactly when the determinant is non-zero (parallel lines give none), and that point lies on both lines. |
| Geom.LineIntersectionUnique | geom.h:79-84 | For non-parallel lines, any point on both lines is the point returned. |
| Geom.LineIntersectionSymmetric | geom.h:81-82 | Swapping the two lines gives the same result, including the parallel case. |
| Geom.IsPointOnSegmentIsWidenedBox | geom.h:108-114 | The four tolerant bound checks accept exactly the points in the segment's bounding box widened by EPS on every side. |
| Geom.SegmentIntersection | geom.h:104-121 | A returned point comes from non-parallel lines, lies on the segment's line and on the given line, and lies in the widened box. |
| Geom.SegmentIntersectionComplete | geom.h:104-121 | For non-parallel lines, a point that lies on both lines and in the widened box is accepted, and it is exactly the point returned. |
| Geom.SegmentIntersectionAtEndpoint | geom.h:104-121 | A non-parallel line through an endpoint of the segment hits the segment at that endpoint. |
| Geom.SegmentIntersectionSwap | geom.h:100-121 | Reversing the segment's endpoints never changes the result. |
| Raycast.Move | main.cpp:28-33 | A move displaces the position by the direction (forward) or its negation (backward). It keeps the direction and the rotation angle. |
| Raycast.MoveRoundTrip | main.cpp:28-33 | A step one way followed by a step the other way restores the player exactly. |
| Raycast.Turn | main.cpp:22-26 | Turning keeps the position and the rotation angle. The direction becomes the rotation by +angle (left) or −angle (right). |
| Raycast.Projection | main.cpp:41 | The unrounded height H / (len / F) is positive, and times len it gives H·F. |
| Raycast.CalcHeight | main.cpp:40-42 | Every height is between 0 and H. |
| Raycast.CalcHeightMonotone | main.cpp:40-42 | Height never increases with distance: 0 < d1 ≤ d2 implies CalcHeight(d1) ≥ CalcHeight(d2). |
| Raycast.LargestFit | main.cpp:40-42 | The result is the largest height not above k whose square times the squared distance is at most (H·F)². |
| Raycast.HeightFromSq | main.cpp:40-42 | The height from a squared distance is the largest height up to H that fits at that distance. |
| Raycast.HeightFromSqMatches | main.cpp:40-42 | For every len > 0, the height from len² equals CalcHeight(len), so comparing squares loses nothing. |
| Raycast.NearerBySquares | main.cpp:62-63 | For two non-negative lengths, one is smaller exactly when its square is smaller. |
| Raycast.SquareOrderIff | main.cpp:62-63 | For non-negative reals, `<=`, `<` and `==` agree with the same comparisons of their squares. |
| Raycast.SquaredSelectionAgrees | main.cpp:52-66 | Suppose every candidate distance is the square of a non-negative candidate length. Then (cur, len) satisfies the selection rule over lengths, starting from len = INF, exactly when (cur, len²) satisfies it over squared distances, starting from INF². The squared search therefore selects the same wall as the original. |
| Raycast.NoHitHeight | main.cpp:52-53 | A column that keeps len = INF gets height 0, whether computed from INF or from INF². |
| Raycast.HeightBeyondReach | main.cpp:40-42 | Every squared distance beyond (H·F)² gives height 0. |
| Raycast.WallOf | main.cpp:56-58 | Wall j of a polygon with n vertices joins vertex j to vertex (j + 1) mod n. |
| Raycast.RayLine | main.cpp:51 | The line through the player's position and the position shifted by the ray. |
| Raycast.WallsCloseLoop | main.cpp:55-58 | Polygon wall j starts at vertex j and ends where wall j + 1 starts. The last wall ends at vertex 0, so n vertices give a closed loop of n walls. |
| Raycast.WallHit | main.cpp:58-61 | A kept hit is the segment/ray-line intersection, lies on the ray's line, and is not behind the player (dot product ≥ 0). A dropped wall was missed or hit behind the player. |
| Raycast.HitDistSq | main.cpp:58-63 | A candidate distance exists only for a real wall of the map and is never negative. |
| Raycast.NearestIsUnique | main.cpp:55-66 | The selection rule (the least distance, and the first wall in polygon-then-segment order to reach it) fixes the wall and its distance uniquely. |
| Raycast.NoCandidateNeverSelected | main.cpp:59-65 | A wall the scan skips (no candidate distance) is never the selected wall. |
| Raycast.BehindNeverSelected | main.cpp:60-61 | A wall whose hit lies behind the player gets no candidate distance, so no search result over the whole map selects it. |
| Raycast.SelectNearest | main.cpp:52-67 | The nested scan with a strict comparison returns the least candidate distance, and the first wall in order to reach it. With no candidate below INF², the result is the pair (-1, -1) with INF². |
| Raycast.NearestWall | main.cpp:51-67 | For one ray, the selected wall and distance satisfy the selection rule over every wall of every polygon. The distance is between 0 and INF², and a selected wall is in range. |
| Raycast.IsEdge | main.cpp:70 | A column is an edge when the last wall is not (-1, -1) and differs from the current wall. |
| Raycast.EdgesExtend | main.cpp:46-71 | Comparing each new column's wall with the last one, starting from (-1, -1), marks exactly the columns whose previous wall exists and differs. |
| Raycast.EdgeRules | main.cpp:70-71 | Column 0 is never an edge. A column after a no-hit column, or after a column with the same wall, is never an edge. |
| Raycast.Sweep | main.cpp:50-75 | Each column holds its nearest wall, its height from that distance (0 with no hit), and its edge flag against the previous column. The column is painted by the as-written `DrawColumn`, and on the H-row screen it shows sky, wall and floor bands of the source's row counts. |
| Raycast.RayCasting | main.cpp:44-76 | One frame: for each column's ray, the nearest wall over the whole map, its height, its edge flag, and the painted column. |
| Screen.NewScreenManager | iohelper.h:31-36 | The new grid has winH rows of winW cells, all 0. |
| Screen.WallCode | iohelper.h:70-81 | The wall glyph: 6 for an edge, otherwise 8, 5, 4 or 3 for wallH below 5, 10, 15 or 20, and 2 above that. |
| Screen.FloorCode | iohelper.h:88-97 | The floor glyph by absolute row: 13 below row 43, 12 below 48, 11 below 54, then 10. |
| Screen.SkyRows | iohelper.h:66 | The sky count (winH − wallH) / 2 + wallH % 2. |
| Screen.FloorRows | iohelper.h:86 | The floor count (winH − wallH) / 2. |
| Screen.PaintColumn | iohelper.h:64-99 | The three loops write sky 0s, the wall code chosen from the height bands (6 for an edge), and floor codes from the row bands. They stop at the bottom row, and every other column and every unreached row is unchanged. |
| Screen.EvenScreenBands | iohelper.h:66-86 | On a screen of even height, sky + wall + floor rows equal the height exactly, and the sky gets the extra row of an odd wall. |
| Screen.DrawColumn | iohelper.h:63-100 | The painter as written: only column col changes, and its rows are written from the source's band counts. On an even-height screen the whole column shows sky, wall and floor bands. |
| Screen.OddScreenBands | iohelper.h:66-86 | On a 5-row screen, a 5-row wall would end one row past the bottom, and a 2-row wall leaves the bottom row unpainted. |
| Screen.CentredSkyRowsAgreeOnEvenScreens | iohelper.h:66 | On an even-height screen, the corrected sky count equals the source's. |
| Screen.DrawColumnCentred | iohelper.h:63-100 | The corrected painter: on every screen height it fills the column exactly once with sky, wall and floor bands. Only column col changes, and sky rows are floor rows plus the parity of the free rows. |

## Left out

- `Vector::Rotate`, `DegreesToRadians`, the viewing angle and the per-column ray rotation need sine, cosine and π. Column rays are inputs to `Raycast.RayCasting`, and `Raycast.Turn` takes the rotation as a parameter.
- `Vector::Len` needs a square root. Distances are compared squared: `Raycast.SquaredSelectionAgrees` shows the squared search selects the same wall as the search over lengths from INF, and `Raycast.HeightFromSqMatches` shows it yields the same heights.
- IEEE `double` behaviour (rounding, infinities, NaN) is not modelled; coordinates are exact reals. Division by a zero determinant is modelled as `None`, which is where the original's non-finite coordinates fail the segment's x-bound check.
- `Raycast.CalcHeight` requires len > 0. For a tiny len, `int(H / (len / F))` overflows in the original, which is undefined behaviour.
- `Raycast.HeightFromSq` gives H at squared distance 0. That is a player standing exactly on a wall, where the original divides by zero.
- `Screen.DrawColumn` requires 0 ≤ wallH ≤ winH, so that Dafny's Euclidean `/` and `%` agree with C++ truncation. It also requires an even screen height or wallH < winH, because otherwise the original writes one row past the grid (see Findings). The original callers always pass a capped height on a 66-row screen.
- `Screen.NewScreenManager` requires non-negative dimensions; a negative size makes the original's `resize` fail.
- `Raycast.Sweep` and `Raycast.RayCasting` require a screen of H rows and one ray per column, as the original's fixed W × H screen provides.
- `IOInit`, `GetKey`, `RenderFrame` (terminal I/O and the glyph table), the `main` loop with its key handling, and the literal map are I/O or data, not logic.

## Findings

| source | as written | input that shows it | evidently intended | confidence | as-written member | corrected member |
|---|---|---|---|---|---|---|
| iohelper.h:66-99 | The sky count is (winH − wallH) / 2 + wallH % 2. It follows the parity of the wall, not of the free rows. | winH = 5, wallH = 5: one sky row, then five wall rows, so row 5 is written past the 5-row grid. winH = 5, wallH = 2: 1 + 2 + 1 rows, so row 4 is never painted. | Sky rows = free − free / 2 with free = winH − wallH, so every column is filled exactly once. This is the same count as the source's on every even-height screen, including the 66-row screen the program builds. | not executed; latent, since the program only builds a 66-row screen | Screen.DrawColumn, Screen.OddScreenBands | Screen.DrawColumnCentred |
