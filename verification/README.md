# Verified models of rusty-weather's numerical and acquisition cores

This project models the parts of rusty-weather whose correctness is hardest to see by
reading one function at a time, and proves what they promise. Floating-point numbers are
modelled as real numbers, so every statement about them is exact. A non-finite value is
an absent value.

The modules, by area:

- **Optimal interpolation** (`Matrices`, `Cholesky`, `CholeskySolve`,
  `OptimalInterpolation`). The in-place Cholesky factorization succeeds exactly when a
  factor exists, and leaves the only one. With the jitter retries and the two
  substitutions, the workspace holds the solution of the least jittered system that
  factors. The confidence is the squared length of the forward solution over the
  background variance, and the increment reads the same from either of the two solutions.
- **Contours** (`ContourGeometry`, `ContourClip`, `ContourNesting`, `ContourLevels`,
  `ContourBands`, `ContourFill`, `ContourGrid`, `ContourIsolines`). Clipping valued
  triangles into level bins conserves signed area, from one edge up to a cell, through the
  single-bin shortcut and the prefilter. Level lines are watertight.
- **Merging of contour fragments** (`ContourTrace`, `ContourMerge`, `ContourMergeArea`,
  `ContourMergeForward`, `ContourPinch`, `ContourKnot`, `ContourFan`, `ContourPinchFan`,
  `ContourTouch`, `ContourTouchHubs`, `ContourTouchKnot`, `ContourBandShape`,
  `ContourWheel`, `ContourBandRing`, `ContourBandKept`, `ContourBandArea`,
  `ContourCellMerge`, `ContourCellFan`, `ContourCellTouch`, `ContourCellArea`,
  `ContourMergeLoss`, `ContourExtract`). The tracer takes the lowest unused edge at every
  point. It uses every boundary edge once and loses no ring exactly when every boundary
  vertex has even degree. The merged polygons keep the fragments' signed area exactly when
  the edges it walks backwards sweep none. From there to the input: in a cell whose centre
  sees the corners in order, as in every convex cell, no ring is lost, and the area of a
  bin is kept if and only if the cell is not knotted there. A knot is a condition on the
  five values of the cell, below. Up to the grid, the polygons of cells without knots fill
  the bins and the cells.
- **Acquisition** (`Availability`, `Grib2Framing`, `Grib2Bundle`, `ByteRanges`,
  `LongitudeRows`, `LongitudeGrid`, `ScanRows`, `GridMemo`). The parallel probe meets the
  same specification as the serial scan. Framing, bulletin stripping and bundle assembly
  accept exactly the right byte strings. Range coalescing requests exactly the wanted
  bytes. Row normalization, scan reversal and the grid memo lose and mix up nothing.
- **Fetch cache** (`FetchCache`). A step system of processes that store, load,
  quarantine and crash on one pair of files. A state keeps names, inodes with how much of
  them is written, processes, stores begun and hits returned. Every hit in every run is
  the result of one store that had begun, made for a matching request.
- **Vertical profiles** (`ThermalLayers`, `ThermalSplit`, `ThermalRuns`, `ThermalProfile`,
  `StormHelicity`, `HelicityPath`, `HelicityFrames`). Warm and cold layers are the maximal
  runs of one sign and add up to the two parts of the wet-bulb integral, whatever levels
  are inserted. Helicity is the area along a path of winds; how it changes with the frame
  of reference, and for which heights it is additive.

Conventions used throughout:

- The square root is a parameter with the property that the root of a positive number is
  positive and squares to it. `GEOMETRY_EPSILON` is zero.
- The covariance kernel, the availability probe, the GRIB2 parser, the grid builder and
  the message unpacker are parameters: functions about which nothing is assumed.
- The digest of the cache is injective, the metadata encoding decodes to what was
  encoded, and no proper prefix of an encoding decodes to something else.
- Where the code works in place the model keeps the arrays and the fields; a loop in the
  code is a loop in the model, proved against a function on values.

Some laws hold under conditions only.

- A row of longitudes within [-180, 540] is canonical after normalization if and only if
  it spans at most 360 degrees or leaps over a full turn where it folds
  (`LongitudeRows.RotatedCanonical`).
- The byte after a coalesced range is requested by nobody if and only if no earlier range
  ends at the last 64-bit offset, and some range does after coalescing if and only if one
  did before (`ByteRanges.GapIsUncovered`, `ByteRanges.Coalesce`;
  `ByteRanges.MaxRangeHidesGap` is an instance).
- Helicity over ascending heights is additive for all winds, storms and splits if and only
  if the lowest layer is at least a micrometre thick, or there are two levels, or there
  are three within a micrometre (`StormHelicity.AdditiveExactly`).
- Merging the fragments of a cell whose centre sees the corners in order keeps the area of
  a bin if and only if the cell is not knotted there: its last corner lies on a bound of
  the bin, the centre strictly beyond that bound, the two neighbouring corners strictly on
  the bin's side, and the opposite corner not (`ContourCellArea.MergeKeepsCellArea`).
  In a knotted cell the clipped triangles at the second and third place count negatively
  (`ContourCellArea.KnottedArea`). With values 3, 7, 3, 4 on the unit square half of the
  cell lies in the bin from 1 to 4, and merging drops all of it
  (`ContourMergeLoss.SaddleLosesBand`). In a cell that folds over itself an edge can occur
  three times and a ring is cleared (`ContourMergeLoss.FoldedCellLosesRing`).

## Model

| member | source | states |
|---|---|---|
| `Matrices.SumExchange` | crates/rustwx-calc/src/mesoanalysis.rs:1447-1485 | a bilinear form may be summed by rows or by columns: the exchange behind both substitutions |
| `Matrices.SymmetricExchange` | crates/rustwx-calc/src/mesoanalysis.rs:1334-1339 | for a symmetric matrix, t·alpha equals beta·r when alpha solves for r and beta for t |
| `Matrices.QuadraticForm` | crates/rustwx-calc/src/mesoanalysis.rs:1356-1362 | t·beta is the squared length of the forward solution, hence never negative |
| `Matrices.TwoTriangularSolves` | crates/rustwx-calc/src/mesoanalysis.rs:1447-1485 | solving with a factor and then with its transpose solves the product system |
| `Matrices.ApplyTransposeThenFactor` | crates/rustwx-calc/src/mesoanalysis.rs:1447-1485 | the converse: a solution of the product system passes through both triangular systems |
| `Cholesky.FactorableIffPivots` | crates/rustwx-calc/src/mesoanalysis.rs:1417-1445 | a lower factor with positive diagonal exists if and only if every pivot of the recurrence is positive |
| `Cholesky.FactorIsEntry` | crates/rustwx-calc/src/mesoanalysis.rs:1417-1445 | any factor has exactly the entries the recurrence computes |
| `Cholesky.FactorUnique` | crates/rustwx-calc/src/mesoanalysis.rs:1417-1445 | two factors of one matrix are equal |
| `Cholesky.PivotsGiveFactor` | crates/rustwx-calc/src/mesoanalysis.rs:1417-1445 | with positive pivots the recurrence's entries multiply back to the matrix |
| `Cholesky.ResidualAt` | crates/rustwx-calc/src/mesoanalysis.rs:1423-1426 | the inner loop over a half-overwritten matrix computes the pivot or off-diagonal residual of the original |
| `Cholesky.FactorCell` | crates/rustwx-calc/src/mesoanalysis.rs:1423-1438 | one cell: fails exactly on a nonpositive pivot, otherwise writes the factor's entry and nothing else |
| `Cholesky.DecomposeLower` | crates/rustwx-calc/src/mesoanalysis.rs:1417-1445 | in place: true exactly when a factor of the input exists, and then the array is that factor with zeros above the diagonal; a wrong size is refused untouched |
| `CholeskySolve.ForwardSubstitute` | crates/rustwx-calc/src/mesoanalysis.rs:1457-1469 | fails exactly on a nonpositive diagonal entry, otherwise satisfies every row equation |
| `CholeskySolve.BackSubstitute` | crates/rustwx-calc/src/mesoanalysis.rs:1471-1483 | the same for the transposed system, from the last row up |
| `CholeskySolve.SubstitutionsSolve` | crates/rustwx-calc/src/mesoanalysis.rs:1447-1485 | the two substitutions together solve the factored symmetric system |
| `CholeskySolve.SolutionUnique` | crates/rustwx-calc/src/mesoanalysis.rs:1447-1485 | a system with a Cholesky factor has at most one solution |
| `CholeskySolve.SolveInto` | crates/rustwx-calc/src/mesoanalysis.rs:1447-1485 | false exactly on a size mismatch or a nonpositive diagonal; otherwise both triangular systems are solved |
| `OptimalInterpolation.FactorWithJitter` | crates/rustwx-calc/src/mesoanalysis.rs:1394-1415 | succeeds exactly when one of six jitters makes the matrix factorable, and factors with the least |
| `OptimalInterpolation.JitterSteps` | crates/rustwx-calc/src/mesoanalysis.rs:1403-1408 | the six jitters: the base times 1, 10, 100 and so on to 100000, on the diagonal only |
| `OptimalInterpolation.BaseJitter` | crates/rustwx-calc/src/mesoanalysis.rs:1312 | the larger of the variance's share and 1e-12 |
| `OptimalInterpolation.FillCovariance` | crates/rustwx-calc/src/mesoanalysis.rs:1272-1310 | fills the symmetric covariance matrix; fails exactly when some pair has no finite covariance |
| `OptimalInterpolation.CovarianceSymmetric` | crates/rustwx-calc/src/mesoanalysis.rs:1307-1308 | the matrix filled from the lower triangle is symmetric |
| `OptimalInterpolation.LargestMagnitude` | crates/rustwx-calc/src/mesoanalysis.rs:1340-1349 | the peak innovation: an upper bound that is attained, or zero |
| `OptimalInterpolation.LimitToPeak` | crates/rustwx-calc/src/mesoanalysis.rs:1340-1355 | within the factor times the peak on both sides; raw if it lies there, else the nearer end, and raw if every innovation is zero |
| `OptimalInterpolation.LocalSolveFacts` | crates/rustwx-calc/src/mesoanalysis.rs:1312-1362 | both solves, the exchange of the increment, and t·beta as the squared length of the forward solution, from the substitutions alone |
| `OptimalInterpolation.SolveBoth` | crates/rustwx-calc/src/mesoanalysis.rs:1312-1332 | factor once and solve twice: fails exactly when no jitter factors; the factor and both solutions belong to the least jittered system, and the kept forward vector solves the factor for the target covariances |
| `OptimalInterpolation.OiWorkspace.SolveLocalIncrement` | crates/rustwx-calc/src/mesoanalysis.rs:1266-1368 | absent exactly on a missing covariance or an unfactorable matrix; otherwise t·alpha = beta·rhs brought within the limit on both sides (itself if inside, else the nearer end, unlimited if every innovation is zero), and the confidence t·beta over the variance, which is the squared length of the factor's solution for t, capped at one |
| `ContourGeometry.SignedArea` | crates/rustwx-contour/src/geometry.rs:44-56 | the accumulating loop computes the shoelace area, zero below three vertices |
| `ContourGeometry.AreaIsHalfLoop` | crates/rustwx-contour/src/geometry.rs:44-56 | for any number of vertices the area is half the closed shoelace sum |
| `ContourGeometry.Sanitize` | crates/rustwx-contour/src/engine.rs:479-495 | the pushing loop drops repeats of a vertex and a last vertex equal to the first |
| `ContourGeometry.SanitizeKeepsLoop` | crates/rustwx-contour/src/engine.rs:479-495 | sanitizing never changes the enclosed area |
| `ContourClip.ClipPolygon` | crates/rustwx-contour/src/engine.rs:407-433 | the clipping loop concatenates what each edge contributes |
| `ContourClip.EdgeSplit` | crates/rustwx-contour/src/engine.rs:407-477 | the parts of one edge on both sides of a level cover it, up to the shared chord |
| `ContourClip.PensAfter` | crates/rustwx-contour/src/engine.rs:407-433 | both clipped outlines end where they must to close |
| `ContourClip.ClipConservesArea` | crates/rustwx-contour/src/engine.rs:407-477 | a polygon cut by one chord is, in signed area, the sum of its parts below and at or above the level |
| `ContourNesting.InterpolateOnLevel` | crates/rustwx-contour/src/engine.rs:463-477 | the interpolated point lies on the edge where the linear value reaches the level |
| `ContourNesting.InterpolateAscending` | crates/rustwx-contour/src/engine.rs:463-477 | interpolating from an interpolated point gives the same crossing as from the end |
| `ContourNesting.InterpolateDescending` | crates/rustwx-contour/src/engine.rs:463-477 | the same towards an interpolated point |
| `ContourNesting.ClipNests` | crates/rustwx-contour/src/engine.rs:358-398 | clipping at a level and then at a higher one is clipping at the higher one |
| `ContourNesting.ChordSurvives` | crates/rustwx-contour/src/engine.rs:358-398 | the chord of the higher level is unchanged by clipping at the lower |
| `ContourLevels.WithExtend` | crates/rustwx-contour/src/levels.rs:114-160 | accepts exactly two or more strictly ascending thresholds, reports the first descent, and builds the bins of the extend mode |
| `ContourLevels.PartitionPoint` | crates/rustwx-contour/src/levels.rs:206-208 | every threshold before the point is at most the value and the one at it is above |
| `ContourLevels.ContainsUnique` | crates/rustwx-contour/src/levels.rs:61-85 | no value lies in two bins |
| `ContourLevels.BinIndexExact` | crates/rustwx-contour/src/levels.rs:178-210 | the index search returns i if and only if bin i contains the value |
| `ContourLevels.CoveredExactly` | crates/rustwx-contour/src/levels.rs:114-160 | some bin takes a value if and only if it lies between the outer thresholds, ends included, or beyond an end the mode opens |
| `ContourBands.FragmentAreaIsLoop` | crates/rustwx-contour/src/engine.rs:358-398 | discarding short, sanitized or empty fragments never discards area |
| `ContourBands.TriangleChord` | crates/rustwx-contour/src/engine.rs:358-398 | a level meets a valued triangle in one chord |
| `ContourBands.BinShare` | crates/rustwx-contour/src/engine.rs:358-398 | a triangle's area in a bin is the difference of its areas below the two bounds |
| `ContourBands.BandsConserveArea` | crates/rustwx-contour/src/engine.rs:358-477 | for every valued triangle and every ascending thresholds with both ends open, the fragments of all bins add up to the triangle |
| `ContourFill.ValueRange` | crates/rustwx-contour/src/engine.rs:265-273 | the tight range of the five values of a cell |
| `ContourFill.ContainedKeepsArea` | crates/rustwx-contour/src/engine.rs:358-398 | a triangle whose values all lie in a bin keeps its whole area there |
| `ContourFill.MissedBinIsEmpty` | crates/rustwx-contour/src/engine.rs:358-398 | a triangle entirely on the wrong side of a bound leaves no fragment |
| `ContourFill.PrefilterExact` | crates/rustwx-contour/src/engine.rs:443-461 | the prefilter keeps a bin if and only if the bin holds some value of the range |
| `ContourFill.PrefilterSkipsNothing` | crates/rustwx-contour/src/engine.rs:443-461 | a bin the prefilter skips would have yielded no fragment |
| `ContourFill.FanIsOutline` | crates/rustwx-contour/src/engine.rs:256-263 | wherever the centre lies, the four triangles add up to the cell |
| `ContourFill.OtherBinMissed` | crates/rustwx-contour/src/engine.rs:275-283 | a triangle in one bin leaves nothing in another |
| `ContourFill.FastPathAgrees` | crates/rustwx-contour/src/engine.rs:75-85 | the shortcut gives the bin and area that clipping gives, and clipping gives nothing elsewhere |
| `ContourFill.CellConservesArea` | crates/rustwx-contour/src/engine.rs:184-192 | over four triangles and all bins a cell's fragments add up to its outline |
| `ContourExtract.BandFragmentsForCell` | crates/rustwx-contour/src/engine.rs:184-192 | the loop pushes what each of the four triangles leaves in the bin, in order |
| `ContourExtract.FullCellPolygon` | crates/rustwx-contour/src/engine.rs:285-295 | the sanitized outline, absent exactly when it has fewer than three vertices or no area |
| `ContourExtract.OutlinePolygon` | crates/rustwx-contour/src/engine.rs:285-295 | whether kept or not, it has the area of the outline |
| `ContourExtract.FillByBins` | crates/rustwx-contour/src/engine.rs:87-99 | the prefiltered loop emits, bin by bin, the merged fragments of every bin and so misses none |
| `ContourExtract.FillCell` | crates/rustwx-contour/src/engine.rs:71-100 | the outline in its single bin, or the merged fragments of all bins |
| `ContourExtract.ShortcutArea` | crates/rustwx-contour/src/engine.rs:75-85 | in any cell the shortcut's polygon has in each bin the area clipping gives |
| `ContourExtract.OneKnot` | crates/rustwx-contour/src/engine.rs:87-99 | a cell is knotted in one bin at most |
| `ContourExtract.SingleBinNoKnots` | crates/rustwx-contour/src/engine.rs:75-85 | a cell whose values share a bin is knotted in none |
| `ContourExtract.CellPolygonsArea` | crates/rustwx-contour/src/engine.rs:71-100 | if the centre sees the corners in order or the shortcut applies: the emitted polygons have in each bin the area of the clipped triangles if and only if no bin is knotted; and with both ends open they fill the cell if and only if no bin is knotted |
| `ContourExtract.ExtractFilledBands` | crates/rustwx-contour/src/engine.rs:63-106 | the polygons of all finite cells in order |
| `ContourExtract.ExtractionConserves` | crates/rustwx-contour/src/engine.rs:63-106 | if every finite cell is such a cell and without knots, each bin's polygons have exactly its clipped area over the grid, and with both ends open the polygons fill the finite cells |
| `ContourGrid.CellsFromMembers` | crates/rustwx-contour/src/grid.rs:42-78 | the cells still to come are exactly those not before the cursor |
| `ContourGrid.CellsFromOnce` | crates/rustwx-contour/src/grid.rs:42-78 | each of them comes exactly once |
| `ContourGrid.GridCells.Next` | crates/rustwx-contour/src/grid.rs:60-78 | yields the first remaining cell and leaves the rest; absent exactly at the end |
| `ContourIsolines.CellMask` | crates/rustwx-contour/src/engine.rs:237-245 | the loop over corners builds the four-bit mask |
| `ContourIsolines.ContourSegmentsForCell` | crates/rustwx-contour/src/engine.rs:108-182 | the segments of one cell by the sixteen-case table, with the centre deciding saddles and segments of no length dropped |
| `ContourIsolines.LastingKeepsParity` | crates/rustwx-contour/src/engine.rs:174-177 | dropping segments of no length takes an even number of ends from every point |
| `ContourIsolines.LastingMembers` | crates/rustwx-contour/src/engine.rs:174-177 | and drops exactly those whose two ends coincide |
| `ContourIsolines.IntersectionExact` | crates/rustwx-contour/src/engine.rs:343-356 | an edge has an intersection exactly when the level separates its ends, and then at the linear crossing |
| `ContourIsolines.IntersectionReversed` | crates/rustwx-contour/src/engine.rs:343-356 | the intersection does not depend on the direction of the edge |
| `ContourIsolines.LocalMatchesGrid` | crates/rustwx-contour/src/engine.rs:247-254 | a cell's intersection on an edge depends on that grid edge alone |
| `ContourIsolines.TableUsesCrossedEdges` | crates/rustwx-contour/src/engine.rs:119-166 | the table pairs every crossed edge of a cell once and no other |
| `ContourIsolines.SaddleFollowsCentre` | crates/rustwx-contour/src/engine.rs:114-166 | in a saddle each segment cuts off a corner on the other side of the level than the centre |
| `ContourIsolines.SaddleFollowsMean` | crates/rustwx-contour/src/engine.rs:108-166 | from the four stored values: a saddle is cut by two segments, and each cuts off a corner on the other side of the level than the mean of the four |
| `ContourIsolines.CellEndsOnEdge` | crates/rustwx-contour/src/engine.rs:108-182 | a finite cell ends one segment on each crossed edge and none on others |
| `ContourIsolines.ExtractIsoline` | crates/rustwx-contour/src/engine.rs:37-61 | the level line is the cells' segments in traversal order, without those of no length |
| `ContourIsolines.LevelLinesWatertight` | crates/rustwx-contour/src/engine.rs:37-61 | before that, a crossed grid edge carries one segment end for each finite cell sharing it, an uncrossed edge none |
| `ContourIsolines.SegmentEndsCoincide` | crates/rustwx-contour/src/engine.rs:247-254 | every segment ends at the crossing point of its grid edge, so neighbours meet |
| `ContourIsolines.EdgePointDivides` | crates/rustwx-contour/src/engine.rs:343-356 | that point divides the line between the edge's two stored points as the level divides their stored values |
| `ContourTrace.BuildAdjacency` | crates/rustwx-contour/src/engine.rs:537-541 | lists for every point exactly the edges that touch it, in ascending order |
| `ContourTrace.NextEdge` | crates/rustwx-contour/src/engine.rs:559-566 | the lowest unused edge at a point, or none exactly if all are used |
| `ContourTrace.WalkParityStep` | crates/rustwx-contour/src/engine.rs:559-581 | a step of the walk keeps the parity of unused degree everywhere but at the walk's two ends |
| `ContourTrace.StuckIsOdd` | crates/rustwx-contour/src/engine.rs:559-566 | a walk stuck away from its start sits at a vertex of odd degree |
| `ContourTrace.WalkEnds` | crates/rustwx-contour/src/engine.rs:546-581 | a walk uses up unused edges once each; it returns as a closed trail that keeps all parities, or some vertex had odd degree |
| `ContourTrace.WalkRing` | crates/rustwx-contour/src/engine.rs:546-581 | in place: the ring and the used edges of the walk that always takes the lowest unused edge |
| `ContourTrace.TraceExact` | crates/rustwx-contour/src/engine.rs:543-581 | over all walks every edge is used exactly once, rings are closed trails, and no ring is cleared if and only if every vertex has even degree |
| `ContourTrace.TraceRings` | crates/rustwx-contour/src/engine.rs:543-581 | the rings of the walks from every edge not used before |
| `ContourMerge.BoundaryIsEven` | crates/rustwx-contour/src/engine.rs:532-535 | dropping repeated edges keeps all degrees even, provided each edge occurs once or an even number of times |
| `ContourMerge.FragmentEdgesEven` | crates/rustwx-contour/src/engine.rs:505-530 | the edges of all fragment rings have even degree at every vertex |
| `ContourMerge.CountEdges` | crates/rustwx-contour/src/engine.rs:520-522 | the count of each undirected edge |
| `ContourMerge.BoundaryEdges` | crates/rustwx-contour/src/engine.rs:532-535 | the boundary is the edges that occur once |
| `ContourMerge.MergeTracesBoundary` | crates/rustwx-contour/src/engine.rs:497-581 | the walks use each boundary edge once, are closed trails, and none is cleared if and only if every boundary vertex has even degree, which holds whenever each edge occurs once or an even number of times |
| `ContourMerge.MergeFragments` | crates/rustwx-contour/src/engine.rs:497-598 | the polygons: boundary traced, rings sanitized, short and flat ones dropped |
| `ContourMergeArea.BoundaryTotal` | crates/rustwx-contour/src/engine.rs:505-535 | if repeated edges cancel in direction, dropping them takes nothing from any total that changes sign with direction |
| `ContourMergeArea.CancelMeansEven` | crates/rustwx-contour/src/engine.rs:517-535 | and then every edge occurs once or an even number of times, so no ring is cleared |
| `ContourMergeArea.TraceSums` | crates/rustwx-contour/src/engine.rs:543-581 | the traced rings sweep what the edges sweep, less twice what is walked backwards |
| `ContourMergeArea.MergedAreaExact` | crates/rustwx-contour/src/engine.rs:497-598 | the merged signed area is the fragments' less the backward sweep, so it is kept if and only if that is zero |
| `ContourMergeForward.SingleTargetsKeepArea` | crates/rustwx-contour/src/engine.rs:559-581 | where no two boundary edges lead to one point the walk never turns back, and merging keeps the area |
| `ContourMergeForward.DegreeTwoKeepsArea` | crates/rustwx-contour/src/engine.rs:497-598 | so it does when no boundary vertex has more than two edges |
| `ContourMergeForward.OnceInOnceOut` | crates/rustwx-contour/src/engine.rs:532-541 | where as many edges lead in as out, one in is one out |
| `ContourPinch.HubLeadsOut` | crates/rustwx-contour/src/engine.rs:559-566 | where two loops touch at a hub and the lowest edge leads out, or a path from the first edge arrives by the lowest, the walk never finds an edge in first |
| `ContourPinch.PinchKeepsArea` | crates/rustwx-contour/src/engine.rs:497-598 | so merging keeps the area of a boundary pinched at any number of such hubs |
| `ContourKnot.KnotWalk` | crates/rustwx-contour/src/engine.rs:543-581 | two loops that meet the other way round: one walk takes both, and all of the second backwards |
| `ContourWheel.SectorsMeet` | crates/rustwx-contour/src/engine.rs:256-263 | around a centre that sees the corners in order, two triangles meet only along their common spoke |
| `ContourWheel.ConvexAround` | crates/rustwx-contour/src/grid.rs:104-110 | the mean of a convex cell's corners sees them in order |
| `ContourWheel.RectangleConvex` | crates/rustwx-contour/src/grid.rs:154-166 | cells of a rectilinear grid are convex, whichever way its axes run |
| `ContourCellMerge.ClippedIsBand` | crates/rustwx-contour/src/engine.rs:358-433 | clipping to the lower and then to the upper bound is clipping each edge to the band once |
| `ContourBandShape.BandSpots` | crates/rustwx-contour/src/engine.rs:358-433 | the clipped vertices as positions around the triangle |
| `ContourBandKept.PieceShape` | crates/rustwx-contour/src/engine.rs:407-433 | what a side of the triangle lists: its crossings, and its corners repeated as often as they touch a bound |
| `ContourBandKept.SanitizedIsCore` | crates/rustwx-contour/src/engine.rs:375-398 | sanitizing leaves the crossings and the corners in or on the band, each once, for any three values |
| `ContourBandKept.TouchedIsShort` | crates/rustwx-contour/src/engine.rs:375-398 | and at most two vertices if the band only touches the triangle |
| `ContourBandArea.KeptHasArea` | crates/rustwx-contour/src/engine.rs:375-398 | otherwise it leaves a fragment with area, of the triangle's own sign |
| `ContourCellFan.FragmentIsRing` | crates/rustwx-contour/src/engine.rs:184-192 | if the centre sees the corners in order, each triangle's fragment is that ring, or nothing, for any five values |
| `ContourCellFan.CellIsFan` | crates/rustwx-contour/src/engine.rs:184-192 | then the fragments of a cell share exactly the open parts of its spokes, once in each direction, and otherwise touch only at corners that face the centre across a bound |
| `ContourFan.FanCancels` | crates/rustwx-contour/src/engine.rs:517-535 | in such a fan repeated edges cancel in direction |
| `ContourFan.FanOnce` | crates/rustwx-contour/src/engine.rs:532-541 | away from the centre and from where fragments touch, the boundary passes every point once |
| `ContourFan.FanTargets` | crates/rustwx-contour/src/engine.rs:532-535 | unless the centre joins two loops or fragments touch, no two boundary edges lead to one point |
| `ContourPinchFan.FanPinches` | crates/rustwx-contour/src/engine.rs:532-541 | where the centre joins two loops, it is such a hub |
| `ContourTouch.OwnIs` | crates/rustwx-contour/src/engine.rs:532-535 | where fragments touch, each ring leaves to the boundary a path along the rim and one closing edge |
| `ContourTouchHubs.TouchPinches` | crates/rustwx-contour/src/engine.rs:532-541 | every corner where fragments touch is such a hub, except the last while the second spoke is not open |
| `ContourTouchKnot.KnottedWalk` | crates/rustwx-contour/src/engine.rs:543-581 | and then one walk takes the whole boundary, the second and third ring backwards |
| `ContourCellTouch.BeyondCell` | crates/rustwx-contour/src/engine.rs:184-192 | with the centre beyond a bound: which triangles leave fragments, which spokes join them and where they touch, by the sides of the corner values |
| `ContourCellArea.UntiedKeepsArea` | crates/rustwx-contour/src/engine.rs:92-98 | merging keeps the area of a cell's fragments unless they are tied at the last corner |
| `ContourCellArea.TiedLosesArea` | crates/rustwx-contour/src/engine.rs:92-98 | and loses a nonzero one if they are |
| `ContourCellArea.MergeKeepsCellArea` | crates/rustwx-contour/src/engine.rs:92-98 | for any proper bin and any five values, if the centre sees the corners in order: merging keeps the area of the clipped triangles if and only if the cell is not knotted in the bin, and clears no ring |
| `ContourCellArea.KnottedArea` | crates/rustwx-contour/src/engine.rs:92-98 | in a knotted cell the merged area is that of the first and fourth triangle less that of the second and third |
| `ContourCellArea.MeanKnot` | crates/rustwx-contour/src/field.rs:94-101 | with the mean at the centre a knot is decided without the opposite corner |
| `ContourCellArea.ConvexCellKeepsArea` | crates/rustwx-contour/src/engine.rs:92-98 | the same for every convex cell around the mean of its corners |
| `ContourMergeLoss.SaddleLosesBand` | crates/rustwx-contour/src/engine.rs:497-598 | the unit square with values 3, 7, 3, 4 and the bin from 1 to 4: fragments of area one half, and no polygon |
| `ContourMergeLoss.FoldedCellLosesRing` | crates/rustwx-contour/src/engine.rs:559-566 | a cell with two equal corners: an edge occurs three times and the only ring is cleared |
| `Availability.AnySource` | crates/rustwx-io/src/lib.rs:281-292 | one candidate: available exactly when some source answers; probes only the sources before the first hit, each key once |
| `Availability.AvailableHoursExact` | crates/rustwx-io/src/lib.rs:273-293 | an hour is available if and only if a source of one of its candidates answers: NOMADS for the first byte, others for their index or, without one, their file |
| `Availability.AvailableHoursSerial` | crates/rustwx-io/src/lib.rs:273-293 | the available hours in order; the keys probed are exactly the needed unknown ones, each once |
| `Availability.Advance` | crates/rustwx-io/src/lib.rs:324-333 | a candidate moves past known failures and stops at a known hit or an unknown key |
| `Availability.CollectPending` | crates/rustwx-io/src/lib.rs:338-349 | the keys of a round: those unresolved candidates wait for, without repeats |
| `Availability.AvailableHoursParallel` | crates/rustwx-io/src/lib.rs:295-365 | the contract of the serial scan: same hours, same order, same probed keys, each once; every round but the last learns a key, so the rounds end |
| `Grib2Framing.MessageEndExact` | crates/rustwx-io/src/lib.rs:1357-1402 | the checks of one turn accept an end if and only if the bytes up to it are one well-framed message |
| `Grib2Framing.WrittenOctetsRead` | crates/rustwx-io/src/lib.rs:1375-1379 | octets written from a number, most significant first, read back as the number |
| `Grib2Framing.ReadOctetsWritten` | crates/rustwx-io/src/lib.rs:1375-1379 | and any octets are those of the number they read as |
| `Grib2Framing.WrittenIsMessage` | crates/rustwx-io/src/lib.rs:1357-1402 | "GRIB", two octets, a discipline, edition 2, the length in eight octets, any body and "7777" make a message |
| `Grib2Framing.MessageIsWritten` | crates/rustwx-io/src/lib.rs:1357-1402 | and every message is made so |
| `Grib2Framing.WrittenAccepted` | crates/rustwx-io/src/lib.rs:1354-1407 | such bytes are accepted as one message |
| `Grib2Framing.FaultExact` | crates/rustwx-io/src/lib.rs:1357-1402 | each error is reported exactly of the bytes that have that fault |
| `Grib2Framing.FramingUnique` | crates/rustwx-io/src/lib.rs:1354-1407 | a byte string splits into messages in at most one way |
| `Grib2Framing.FramingConcat` | crates/rustwx-io/src/lib.rs:1354-1407 | framings concatenate |
| `Grib2Framing.FramingRest` | crates/rustwx-io/src/lib.rs:1354-1407 | and split: the framing of a concatenation starts with that of its first part |
| `Grib2Framing.CheckFraming` | crates/rustwx-io/src/lib.rs:1354-1407 | accepts exactly the nonempty concatenations of messages and counts them; a failure is the fault of the first wrong message |
| `Grib2Bundle.FindGrib` | crates/rustwx-io/src/lib.rs:1277-1289 | the first indicator within the limit, or none |
| `Grib2Bundle.EnvelopeUnique` | crates/rustwx-io/src/lib.rs:1267-1346 | an envelope has one heading and one message |
| `Grib2Bundle.StripBulletin` | crates/rustwx-io/src/lib.rs:1271-1346 | carries a message exactly when the bytes are laid out as a bulletin around it; otherwise the error names what is wrong with them |
| `Grib2Bundle.ComponentPayload` | crates/rustwx-io/src/lib.rs:1267-1346 | bare objects pass; otherwise accepted exactly when the bytes are an envelope, and then its message comes back; a rejection names the fault |
| `Grib2Bundle.ParseComplete` | crates/rustwx-io/src/lib.rs:1354-1416 | accepts exactly framed bytes whose messages the parser realizes all; an error is that of the first wrong message or the parser's |
| `Grib2Bundle.PartsUnique` | crates/rustwx-io/src/lib.rs:1479-1528 | the messages of the components are determined by their bytes |
| `Grib2Bundle.FirstDuplicate` | crates/rustwx-io/src/lib.rs:1445-1452 | reports a duplicate exactly when two products agree, and the first that repeats |
| `Grib2Bundle.AddComponent` | crates/rustwx-io/src/lib.rs:1481-1525 | one turn of the assembly: extends the framed bundle, or the bundle was not admissible and the error names this component's fault |
| `Grib2Bundle.AssembleBundle` | crates/rustwx-io/src/lib.rs:1439-1530 | succeeds exactly on admissible components; the bundle is the concatenated payloads, framed, with the sum of the counts; an error is the count, the first repeated product or the first component at fault, and only the parser can object to the whole |
| `ByteRanges.Sort` | crates/rustwx-io/src/lib.rs:3309-3312 | sorted by start, same ranges |
| `ByteRanges.MergeSorted` | crates/rustwx-io/src/lib.rs:3314-3326 | the merging loop computes the fold over the sorted ranges, covers the same bytes and keeps neighbours apart |
| `ByteRanges.Coalesce` | crates/rustwx-io/src/lib.rs:3308-3327 | covers exactly the same bytes, sorted, with neighbours apart unless the earlier ends at the last offset; some range ends there if and only if one did before |
| `ByteRanges.GapIsUncovered` | crates/rustwx-io/src/lib.rs:3308-3327 | the byte after a range is covered by none if and only if no earlier range ends at the last offset |
| `ByteRanges.MaxRangeHidesGap` | crates/rustwx-io/src/lib.rs:3314-3326 | a range that ends at the last offset swallows nothing after it, and a gap between later ranges is covered |
| `ByteRanges.SelectedExactly` | crates/rustwx-io/src/lib.rs:3285-3290 | an entry is selected if and only if a pattern names its own parameter, level type or level |
| `ByteRanges.BadExactly` | crates/rustwx-io/src/lib.rs:3279-3299 | a line is refused if and only if it cannot be decoded or asks for a byte beyond the last 64-bit offset |
| `ByteRanges.IndexSubsetRanges` | crates/rustwx-io/src/lib.rs:3255-3306 | a byte is requested exactly when a matching nonempty entry covers it; the first bad line is reported; unknown patterns mean the whole file |
| `LongitudeRows.WrapFrom` | crates/rustwx-io/src/lib.rs:4924-4929 | the first value below its predecessor |
| `LongitudeRows.RotatedFrom` | crates/rustwx-io/src/lib.rs:4877-4881 | column c comes from column c + k, cyclically |
| `LongitudeRows.RotationInjective` | crates/rustwx-io/src/lib.rs:4877-4881 | distinct columns come from distinct columns |
| `LongitudeRows.WrapIsAtFold` | crates/rustwx-io/src/lib.rs:4924-4929 | a folded provider row descends at the fold or nowhere |
| `LongitudeRows.RotatedCanonical` | crates/rustwx-io/src/lib.rs:4856-4884 | a provider row becomes canonical if and only if it folds cleanly |
| `LongitudeGrid.NormalizeAndRotateRows` | crates/rustwx-io/src/lib.rs:4856-4884 | in place: every row of both coordinate grids is folded and rotated by the reported amount |
| `LongitudeGrid.RotateRowsLeft` | crates/rustwx-io/src/lib.rs:4888-4896 | in place: every row of values is rotated by the reported amount |
| `LongitudeGrid.TriplesStayTogether` | crates/rustwx-io/src/lib.rs:4852-4896 | latitude, longitude and value of a cell come from one cell |
| `LongitudeGrid.GridIsCanonical` | crates/rustwx-io/src/cache.rs:660-690 | the cache's test holds exactly for nonempty grids of the right size with canonical rows |
| `LongitudeGrid.NormalizedGridCanonical` | crates/rustwx-io/src/cache.rs:660-690 | a normalized provider grid passes that test if and only if every row folds cleanly, so always when rows span at most 360 degrees |
| `ScanRows.TransmissionUnique` | crates/rustwx-io/src/lib.rs:4898-4922 | a stream in a scan mode transmits one grid |
| `ScanRows.ScanDirections` | crates/rustwx-io/src/lib.rs:4908-4915 | which rows run east to west, by the flags of the scan mode: all or none, or every second one |
| `ScanRows.TransmitsValues` | crates/rustwx-io/src/lib.rs:4914-4921 | value by value, such a row is read from its end |
| `ScanRows.NormalizeAlternatingScan` | crates/rustwx-io/src/lib.rs:4898-4922 | in place: the values become the grid the stream transmits; wrong sizes and streams of columns stay as they are |
| `GridMemo.ToBitsInjective` | crates/rustwx-io/src/lib.rs:4630-4664 | two doubles have the same bits if and only if they agree in sign, exponent and fraction |
| `GridMemo.KeyInjective` | crates/rustwx-io/src/lib.rs:4630-4664 | two grid definitions have the same key if and only if all twenty-nine fields agree |
| `GridMemo.Memo.SlotIndex` | crates/rustwx-io/src/lib.rs:4694-4709 | the slot of the message's own definition, built at most once; absent exactly when the grid cannot be built |
| `GridMemo.Memo.DefinitionsDistinct` | crates/rustwx-io/src/lib.rs:4630-4664 | no two slots share a definition |
| `GridMemo.FromScratchExactly` | crates/rustwx-io/src/lib.rs:4752-4786 | the field from scratch exists if and only if grid and message can be read and the values fill the grid, and then carries that grid and projection |
| `GridMemo.Memo.BuildFieldValues` | crates/rustwx-io/src/lib.rs:4752-4786 | values with their slot are the field built from scratch, or both are absent |
| `GridMemo.Memo.BuildSelectedField` | crates/rustwx-io/src/lib.rs:4811-4824 | the cloned output shape is the field built from scratch |
| `GridMemo.ExtractValues` | crates/rustwx-io/src/lib.rs:2033-2055 | over any matched messages: fails exactly when one cannot be built; every found field as from scratch, missing selectors in order, one slot per distinct definition and no unused slot |
| `GridMemo.ExtractFields` | crates/rustwx-io/src/lib.rs:1837-1852 | succeeds exactly when every selector is found and built, and then every field is as from scratch |
| `FetchCache.AcceptIsCoherent` | crates/rustwx-io/src/cache.rs:213-267 | accepted text and bytes are exactly those of the store the text came from |
| `FetchCache.AcceptExactly` | crates/rustwx-io/src/cache.rs:244-264 | a store's metadata is accepted with exactly its bytes and for exactly the loads it answers |
| `FetchCache.AnswersExactly` | crates/rustwx-io/src/cache.rs:329-346 | fetches answer each other if and only if they agree in every field, but for the hour of a three-hourly ensemble product of sref |
| `FetchCache.StepKeeps` | crates/rustwx-io/src/cache.rs:741-783 | every step of every process keeps the invariant |
| `FetchCache.RunKeeps` | crates/rustwx-io/src/cache.rs:348-381 | so every interleaving does |
| `FetchCache.HitsAreCoherent` | crates/rustwx-io/src/cache.rs:213-267 | every hit of every run returns source, url and bytes of one store whose request matches |
| `FetchCache.HitAgrees` | crates/rustwx-io/src/cache.rs:213-267 | field by field: model, cycle, product, source override and patterns agree, and the hour too unless the product is three-hourly |
| `FetchCache.HitFollowsStore` | crates/rustwx-io/src/cache.rs:213-267 | and that store had begun when the hit happened |
| `FetchCache.TemporariesOwned` | crates/rustwx-io/src/cache.rs:741-764 | in a run without crashes no temporary outlives its writer |
| `FetchCache.WriteOnePublishes` | crates/rustwx-io/src/cache.rs:741-764 | an undisturbed atomic write publishes its whole content and leaves the other file alone |
| `FetchCache.LoadExactly` | crates/rustwx-io/src/cache.rs:213-267 | an undisturbed load hits if and only if both files are there and are accepted, and leaves them; otherwise both names are free afterwards |
| `FetchCache.StoreThenLoadHits` | crates/rustwx-io/src/cache.rs:348-381 | from any invariant state, an undisturbed store followed by a matching load hits with its result |
| `FetchCache.StoreServes` | crates/rustwx-io/src/cache.rs:329-381 | so what was stored for one hour is hit for it, and a three-hourly product for every other hour |
| `ThermalLayers.AppendTotal` | crates/rustwx-calc/src/ptype.rs:874-890 | appending adds the energy to the total of its sign and to no other |
| `ThermalLayers.SegmentPartExact` | crates/rustwx-calc/src/ptype.rs:809-838 | splitting a segment at its zero crossing gives exactly its warm and its cold part |
| `ThermalLayers.CrossedEnergies` | crates/rustwx-calc/src/ptype.rs:809-838 | of a crossed segment the lower part comes first, each with the area of its triangle |
| `ThermalLayers.LayersExact` | crates/rustwx-calc/src/ptype.rs:803-838 | layers alternate with positive energies and total the positive and negative parts of the wet-bulb integral |
| `ThermalRuns.RunsUnique` | crates/rustwx-calc/src/ptype.rs:874-890 | alternating layers that are the runs of given energies are the only ones |
| `ThermalRuns.LayersAreRuns` | crates/rustwx-calc/src/ptype.rs:803-890 | for any levels, the layers are exactly the maximal runs of one sign among the segment energies, from the ground up, each with all the energy of its run |
| `ThermalSplit.SegmentSplits` | crates/rustwx-calc/src/ptype.rs:809-838 | a level interpolated into a segment changes nothing |
| `ThermalSplit.InsertKeepsLayers` | crates/rustwx-calc/src/ptype.rs:803-838 | nor into a profile of any length |
| `ThermalProfile.SortIsStable` | crates/rustwx-calc/src/ptype.rs:766-773 | the ordering is ascending and keeps the levels of each height in order |
| `ThermalProfile.SortKeepsAscending` | crates/rustwx-calc/src/ptype.rs:766-773 | an ascending profile is unchanged, so sorting on demand is sorting |
| `ThermalProfile.CompactSpaces` | crates/rustwx-calc/src/ptype.rs:775-793 | kept levels are more than a tenth of a metre apart and the lowest is kept |
| `ThermalProfile.CompactCovers` | crates/rustwx-calc/src/ptype.rs:775-793 | every level is kept or lies at most a tenth of a metre above a kept one |
| `ThermalProfile.CompactInPlace` | crates/rustwx-calc/src/ptype.rs:775-793 | the two-index loop leaves the kept levels in front and reports whether any went |
| `ThermalProfile.NormalizeProfile` | crates/rustwx-calc/src/ptype.rs:766-793 | in place: the normal profile of the levels, with both quality flags exact |
| `ThermalProfile.NormalizedProfileExact` | crates/rustwx-calc/src/ptype.rs:684-693 | any profile once normalized meets what the layer theorem asks, and normalizing again changes nothing |
| `ThermalProfile.BuildLayers` | crates/rustwx-calc/src/ptype.rs:803-838 | the loop over windows builds the layers of the profile, which are the runs of its segment energies |
| `ThermalProfile.CalculateEnergies` | crates/rustwx-calc/src/ptype.rs:803-872 | the warm total is the warm part of the integral; the near-surface pair is the run of cold energies nearest the ground and the warm run above it, present exactly when that one exists |
| `StormHelicity.InterpScalarAtHeight` | crates/rustwx-calc/src/severe.rs:1338-1359 | the searching loop interpolates in the first layer that reaches the height |
| `HelicityPath.InterpExactly` | crates/rustwx-calc/src/severe.rs:1338-1359 | for heights in any order: the first layer that reaches the height, its line, the snap to the ground and the thin layer |
| `StormHelicity.WindOnLayer` | crates/rustwx-calc/src/severe.rs:1326-1359 | inside a layer the wind lies on the line between its two levels, with the snap to the ground and thin layers, whenever the height is not snapped to the ground from a higher layer |
| `StormHelicity.SrhBetweenHeights` | crates/rustwx-calc/src/severe.rs:1361-1402 | the walk over levels adds the sweeps of the layers inside the bounds |
| `StormHelicity.SrhIsChain` | crates/rustwx-calc/src/severe.rs:1361-1402 | on an ascending profile it is the chain from bottom through the levels strictly inside to top |
| `HelicityPath.SrhIsPath` | crates/rustwx-calc/src/severe.rs:1361-1402 | for heights in any order: the area swept along the levels above the bottom that rise above all before, until one leaves through the top |
| `HelicityFrames.SrhSeen` | crates/rustwx-calc/src/severe.rs:1361-1410 | an affine change of all winds and of the storm scales helicity by its determinant, so it is the same for a moving observer and on a turned map |
| `HelicityFrames.RightAngle` | crates/rustwx-calc/src/severe.rs:1404-1410 | its scale: a quarter turn around any storm sweeps the product of the two speeds |
| `StormHelicity.SweptSplits` | crates/rustwx-calc/src/severe.rs:1404-1410 | a point on the same line splits a sweep |
| `StormHelicity.SrhAdditive` | crates/rustwx-calc/src/severe.rs:1361-1402 | with a lowest layer of a micrometre, splitting at any height inside adds up, at a level or between |
| `StormHelicity.TightLayerNotAdditive` | crates/rustwx-calc/src/severe.rs:1345-1347 | over any ascending heights with a thinner lowest layer, and four levels or a third a micrometre up, some winds, storm and split do not add up |
| `StormHelicity.AdditiveExactly` | crates/rustwx-calc/src/severe.rs:1338-1402 | over any ascending heights helicity is additive for all winds, storms and splits if and only if the lowest layer is a micrometre thick, or there are at most two levels, or three within a micrometre |

## Left out

- Floating-point rounding, signed zeros and the 32-bit cast of coordinates and values: numbers are reals.
- Non-finite results of finite arithmetic: only the non-finite values the code receives are modelled.
- ContourMerge.MergeFragments: points are compared exactly instead of by rounded keys.
- ContourMergeArea.MergedAreaExact: its condition is on the walk, since it holds of any fragments whose repeated edges cancel; the condition on the cell is in ContourCellArea.MergeKeepsCellArea.
- ContourCellArea.MergeKeepsCellArea: asks that the centre sees the corners in order; for folded or degenerate cells only the instance of ContourMergeLoss and the general ContourMergeArea.MergedAreaExact are stated.
- ContourExtract.ExtractFilledBands: cells arrive as samples in traversal order; reading corners and centres from a grid is left to ContourIsolines and ContourGrid.
- Grib2Framing.CheckFraming: a declared length beyond the address space is reported as truncated, like any other length past the end.
- Grib2Bundle.AssembleBundle: components arrive fetched, so the provider requests, the cache around the bundle and the check for empty patterns are not part of it.
- ByteRanges.IndexSubsetRanges: lines arrive decoded and patterns split; text trimming and JSON decoding are foreign.
- Availability.AvailableHoursParallel: a round's probes are answered one after another, since each depends on its key alone; the final sort of the hours is a library call.
- GridMemo.ExtractValues: the check of regional grid-relative winds, their rotation and the synthesized dewpoint and wind fields around the loop are not part of it.
- GridMemo.Memo.BuildFieldValues: the arrangement of values by scan mode, row wraps and units is one opaque function there; ScanRows and LongitudeGrid model its row steps, and the flip of rows is foreign.
- FetchCache.Step: file locks, directory creation, legacy metadata schemas and the raw-file cache are not modelled; quarantined files leave the two names.
- ThermalProfile.NormalizeProfile: the library's stable sort is a function on values.
- ThermalProfile.CalculateEnergies: asks for a nonempty profile, as the code does when it reads the surface level.
- Covariance kernels, great-circle distances, wet-bulb and dewpoint formulas: trigonometric or exponential code.
- Model registries, selectors, severe-weather indices, colour scales, rendering and the user interface: one-branch facts.
