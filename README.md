# Wafer die-counting engine

This project models the geometry and bookkeeping engine of a wafer
die-counting tool, and proves properties of that model. The engine is shared
by two GUI front ends:

- `ProcessWaferImage.py`, the Tk front end, is the primary reference (variant `Tk`).
- `WaferAnnotator_pyqt.py`, the PyQt front end, is modelled as the variant `Qt` wherever it differs.

An operator works on a wafer image in several steps:

1. Click three points on the wafer edge. The tool fits a circle through them.
2. Drag a rectangle the size of one die.
3. Paint green mask strokes over regions with no dies.
4. Drag the 16 control points of a 4 × 4 free-form-deformation (FFD) lattice over the die grid, then commit it. Committing turns the interpolated grid into one polygon and one centre per die.
5. Pick the die that is named first. Every die is labelled from an 18-name table that repeats every 3 columns and 6 rows.
6. Ask for a report. It counts the dies inside the circle as masked or clean, and builds a histogram of the clean dies per label.

The modules follow that structure:

- `Basics` holds points, cells, Python `int()` as `Trunc` and `math.ceil` as `Ceil`.
- `DieNaming` is `_get_die_name`.
- `Ffd` covers the bilinear interpolation table, the die polygons and the committed cache.
- `MeshInit` is `_initialize_ffd_mesh`.
- `CircleFit` is `draw_circle_from_points`.
- `MaskRaster` is the alpha buffer, held as an `AlphaMask` class over an `array<int>`. Its operations are the stroke clip, `clear_mask`, `_is_die_masked` and the mask-area count.
- `HitTest` is `_find_clicked_die`.
- `Report` covers the report guards, the areas and the tally.
- `Session.Annotator` is a class with the editor's state:
  - the mode;
  - the circle points;
  - the rectangle start;
  - the circle and the rectangle;
  - the control points;
  - the grid size;
  - the committed cache;
  - the naming shift;
  - the APPLY flag (`pending`);
  - the Tk circle stencil;
  - the mask.

  Its methods are the mouse and mode transitions. They keep an invariant, `Valid()`, which includes these facts:
  - an edit is pending only in grid mode;
  - whenever no edit is pending, the cache equals the commit of the current lattice.

The loops of the source are methods whose ensures tie the result to a specification function:
- the interpolation table, `Session.NodeTable`;
- the commit, `Session.CommitCache`;
- the hit scan, `HitTest.FindClickedDie`;
- the control-point scan, `Session.ScanControlPoints`;
- the mask-area count, `MaskRaster.AlphaMask.CountRegion`;
- the tally, `Report.TallyDies`.

Lemmas then state what the source promises about those functions.

Python floats are Dafny `real`s. Python `%` has a positive divisor everywhere here, so it agrees with Dafny's Euclidean `%`.

## Model

| member | source | states |
|---|---|---|
| DieNaming.RawIndex | ProcessWaferImage.py:824-838 | the flipped, shifted index `Die_C * NUM_ROWS + Die_R` always lies in [0, 18) |
| DieNaming.DieName | WaferAnnotator_pyqt.py:485-495 | the label of any cell under any shift is one of the 18 names |
| DieNaming.NameIndexNeverWraps | ProcessWaferImage.py:824-838 | the final `% len(DIE_NAMES)` never changes the index, and the index is `((C - sC) mod 3) * 6 + (5 - (R - sR) mod 6)` |
| DieNaming.PeriodicInColumns | ProcessWaferImage.py:824-838 | moving a cell by any multiple of 3 columns keeps its name |
| DieNaming.PeriodicInRows | WaferAnnotator_pyqt.py:485-495 | moving a cell by any multiple of 6 rows keeps its name |
| DieNaming.OriginNamedTest1 | ProcessWaferImage.py:824-838 | the die chosen as naming origin is always named `DIE_NAMES[5]`, " :Test1" |
| DieNaming.BlockCoversAllLabels | ProcessWaferImage.py:824-838 | every one of the 18 labels is taken by some cell of any 3 × 6 block |
| DieNaming.BlockNamesInjective | ProcessWaferImage.py:824-838 | two cells of one 3 × 6 block with the same label are the same cell, so within a block cell-to-label is a bijection |
| DieNaming.DieNamesDistinct | ProcessWaferImage.py:21-25 | the 18 labels are pairwise different, so the histogram has 18 keys |
| Ffd.PatchIndexInRange | ProcessWaferImage.py:330-343 | for 0 ≤ C ≤ Max_C the patch index `min(2, floor(3C / Max_C))` is in [0, 2] and the raw local fraction is in [0, 1] |
| Ffd.ClampIsNoOp | WaferAnnotator_pyqt.py:360-382 | the Tk clamp of the local fraction to [0, 1] never changes it, so the unclamped Qt fraction is the same and lies in [0, 1] |
| Ffd.PatchCornersPresent | ProcessWaferImage.py:345-348 | on a full 16-point lattice every corner the interpolation reads exists, so the `.get` defaults are never used |
| Ffd.FrontendsInterpolateAlike | WaferAnnotator_pyqt.py:351-382 | on a full lattice both front ends compute the same point for every node |
| Ffd.OnLatticeLine | ProcessWaferImage.py:330-343 | a node with 3C = k·Max_C sits at patch coordinate k, with fraction 0 in patch k or fraction 1 at the last patch |
| Ffd.InterpolateAtLatticeNode | ProcessWaferImage.py:316-355 | a node lying on lattice lines k and l reproduces control point (k, l) exactly |
| Ffd.InterpolateCorners | ProcessWaferImage.py:316-355 | node (0, 0) equals control point (0, 0) and node (Max_C, Max_R) equals control point (3, 3) |
| Ffd.InterpolateOnFullLattice | ProcessWaferImage.py:345-353 | each node is the bilinear blend of its patch's four control points, with both fractions in [0, 1] |
| Ffd.BilinearWeights | ProcessWaferImage.py:350-353 | the four bilinear weights are non-negative and sum to 1 |
| Ffd.BilinearFacts | ProcessWaferImage.py:350-353 | the nested blend equals the weighted sum of the four corners and lies between their minimum and maximum |
| Ffd.InterpolateIsConvex | ProcessWaferImage.py:316-355 | every interpolated point lies inside the coordinate bounds of its four patch control points |
| Ffd.TableSize | ProcessWaferImage.py:316-355 | the table's keys are exactly [0, Max_C] × [0, Max_R], (Max_C + 1)(Max_R + 1) entries |
| Ffd.InterpolationTableComplete | ProcessWaferImage.py:316-355 | the table holds all four corners of every die of [0, Max_C) × [0, Max_R) |
| Ffd.EntryOfInGrid | ProcessWaferImage.py:814-822 | over a complete table every cell of the grid gets a polygon and is stored in the cache |
| Ffd.QtPolygon | WaferAnnotator_pyqt.py:585-592 | (corrected) a Qt polygon exists exactly when all four corner nodes are in the table |
| Ffd.QtAsWrittenDropsDieAtOrigin | WaferAnnotator_pyqt.py:590 | with control point (0, 0) at the image origin, the written truthiness test drops die (0, 0) although all its corners exist |
| Ffd.CellOrderFacts | ProcessWaferImage.py:224-238 | the nested commit loop visits Max_C · Max_R cells, all inside the grid, pairwise distinct, covering the grid |
| Ffd.CommittedCacheShape | ProcessWaferImage.py:224-238 | the committed cache has one entry per visited cell, in loop order |
| Ffd.CommittedCacheKeys | ProcessWaferImage.py:214-240 | the committed cache's keys are exactly [0, Max_C) × [0, Max_R), with no cell twice |
| Ffd.TkEntryWiring | ProcessWaferImage.py:814-822 | a Tk polygon is [P(C,R+1), P(C+1,R+1), P(C+1,R), P(C,R)] and its centre is the mean of the four corners |
| Ffd.QtEntryWiring | WaferAnnotator_pyqt.py:384-394 | a Qt polygon is [P(C,R), P(C+1,R), P(C+1,R+1), P(C,R+1)] and its centre is the bounding-box centre |
| Ffd.BoxCenterIsMidpoint | WaferAnnotator_pyqt.py:390-393 | the bounding-box centre is the midpoint of the corners' least and greatest x and y |
| MeshInit.SpanHugsInnerCircle | ProcessWaferImage.py:1077-1094 | for a circle inside the image (and not tiny, for Tk) the working span is the circle's diameter from its near edge |
| MeshInit.SpanOfCoveringCircle | ProcessWaferImage.py:1077-1094 | a circle covering the whole side gives the whole side as the working span |
| MeshInit.TkSpanExtentBounded | ProcessWaferImage.py:1077-1094 | the Tk working extent is at least 5% of the image side and starts at or after the near edge of the image, and inside the image whenever the circle's near edge is |
| MeshInit.GridCount | ProcessWaferImage.py:1097-1110 | (corrected) the grid size along an axis is at least 1 |
| MeshInit.GridCountCovers | ProcessWaferImage.py:1097-1110 | for a positive extent, GridCount dies cover it and one fewer would not (ceiling division) |
| MeshInit.GridCountAgreesOnNonNegative | WaferAnnotator_pyqt.py:568-571 | for a non-negative extent the written `== 0` clamp equals the intended floor of 1 |
| MeshInit.QtGridCountGoesNegative | WaferAnnotator_pyqt.py:568-571 | with a circle past the image edge the Qt extent is -100 and the written clamp leaves Max_C at -1 |
| MeshInit.InitialLattice | ProcessWaferImage.py:1113-1132 | the initial lattice has exactly the 16 keys (0..3, 0..3) |
| MeshInit.InitialLatticeCorners | ProcessWaferImage.py:1113-1132 | control point (0, 0) is the span's start and (3, 3) its far corner |
| MeshInit.InitialLatticeColumnSpacing | WaferAnnotator_pyqt.py:573-580 | neighbouring control points in a row are one third of the working width apart, at the same height |
| MeshInit.InitialLatticeRowSpacing | ProcessWaferImage.py:1113-1132 | neighbouring control points in a column are one third of the working height apart, at the same x |
| MeshInit.InitializeMesh | ProcessWaferImage.py:1053-1137 | success needs a circle and a rectangle as the front end judges them (Qt: a non-null `QRectF`) and non-zero die sides, and yields Max_C, Max_R ≥ 1 and 16 control points |
| MeshInit.InitializeMeshFailures | WaferAnnotator_pyqt.py:546-566 | initialisation fails exactly when the circle or rectangle is missing (for Qt a zero radius or a null `QRectF` counts as missing) or a die side is zero, and each case gives its own error: missing circle, missing rectangle, then the Tk division by zero or the Qt zero-side refusal |
| MeshInit.InitialMeshHugsCircle | ProcessWaferImage.py:1077-1132 | for an inner, not tiny circle, control point (0, 0) = (ux − R, uy − R), (3, 3) = (ux + R, uy + R), and the grid covers the diameter |
| MeshInit.TkInitialMeshAsWritten | ProcessWaferImage.py:1097-1110 | for Tk the written clamp and the intended floor give the same grid |
| CircleFit.DeterminantIsTwiceCross | ProcessWaferImage.py:888 | the determinant d is twice the cross product, so it is zero exactly for collinear points |
| CircleFit.CircumcenterEquidistant | ProcessWaferImage.py:894-895 | the closed-form centre is equidistant from the three points |
| CircleFit.CircumcenterUnique | ProcessWaferImage.py:894-895 | any point equidistant from three non-collinear points is the closed-form centre |
| CircleFit.FitCircle | ProcessWaferImage.py:888-896 | a fit is produced exactly when \|d\| is at least the front end's tolerance (1e-10 Tk, 1e-6 Qt) |
| CircleFit.FitPassesThroughPoints | ProcessWaferImage.py:894-896 | an accepted fit's squared radius is the squared distance from its centre to each of the three points |
| CircleFit.AcceptedFit | ProcessWaferImage.py:889-896 | an accepted fit is the circumcentre and the squared distance to the first point |
| CircleFit.CollinearRejected | ProcessWaferImage.py:889-892 | collinear points are always rejected |
| CircleFit.QtAcceptanceImpliesTk | WaferAnnotator_pyqt.py:497-513 | what the Qt fit accepts, the Tk fit accepts with the same centre and radius |
| CircleFit.FitIgnoresClickOrder | ProcessWaferImage.py:882-899 | relabelling the three clicks gives the same centre |
| MaskRaster.TkSample | ProcessWaferImage.py:778-792 | the Tk sample index is clamped into [0, W − 1] × [0, H − 1] and exists whenever the image is not empty |
| MaskRaster.QtSample | WaferAnnotator_pyqt.py:594-599 | the Qt sample exists exactly when the truncated point is inside the image |
| MaskRaster.SamplesAgreeInsideImage | WaferAnnotator_pyqt.py:594-599 | inside the image both front ends sample the same pixel |
| MaskRaster.QtOutsideImageNotMasked | WaferAnnotator_pyqt.py:594-599 | a Qt point outside the image is never masked |
| MaskRaster.TkMaskedMeansClampedAlpha | ProcessWaferImage.py:778-792 | a Tk point is masked exactly when the alpha at its clamped index is at least 120 |
| MaskRaster.ThresholdsAgreeOnDomain | WaferAnnotator_pyqt.py:594-599 | with alpha values in {0, 128}, Tk's `>= 120` and Qt's `> 120` agree inside the image |
| MaskRaster.StrokeEffect | ProcessWaferImage.py:910-927 | after a stroke, samples outside the stencil are 0 and samples inside are 128 on the footprint and unchanged elsewhere |
| MaskRaster.StrokeKeepsDomain | ProcessWaferImage.py:910-927 | a stroke keeps every alpha in {0, 128} |
| MaskRaster.StrokeIdempotent | ProcessWaferImage.py:910-927 | repeating the same stroke changes nothing |
| MaskRaster.CountRows | ProcessWaferImage.py:863-880 | the count over a box is at most the box's area |
| MaskRaster.CleanLayerCountsNothing | ProcessWaferImage.py:863-880 | over a cleared mask the count is 0 |
| MaskRaster.TkRegion | ProcessWaferImage.py:863-880 | the Tk box bounds, after numpy slice normalisation, lie inside the image |
| MaskRaster.TkMaskAreaBounded | ProcessWaferImage.py:863-880 | the Tk mask area is at most the area of its clamped circle bounding box |
| MaskRaster.TkRegionOfInnerCircle | ProcessWaferImage.py:863-880 | for a circle inside the image the box is the truncated circle bounding box |
| MaskRaster.TkNegativeEndWraps | ProcessWaferImage.py:869-877 | a negative slice end counts from the far edge, as numpy does, so a circle left of the image still gives a wide box |
| MaskRaster.MaskAreasWithinImage | WaferAnnotator_pyqt.py:642-647 | both mask areas are at most the image's pixel count |
| MaskRaster.AlphaMask.constructor | ProcessWaferImage.py:189 | a new mask layer is fully transparent |
| MaskRaster.AlphaMask.Clear | ProcessWaferImage.py:855-861 | `clear_mask` sets every sample to 0 |
| MaskRaster.AlphaMask.PaintStroke | ProcessWaferImage.py:910-927 | the buffer becomes the stroke then clip of its old contents |
| MaskRaster.AlphaMask.CountRowSpan | ProcessWaferImage.py:863-880 | the row loop counts the samples of a row span that the rule accepts |
| MaskRaster.AlphaMask.CountRegion | ProcessWaferImage.py:863-880 | the nested loop counts the samples of a box that the rule accepts, at most the box area |
| MaskRaster.AlphaMask.TkAreaInsideCircle | ProcessWaferImage.py:863-880 | the Tk mask area counts alpha ≥ 120 in the clamped circle bounding box |
| MaskRaster.AlphaMask.QtAreaInsideCircle | WaferAnnotator_pyqt.py:642-647 | the Qt mask area counts alpha ≥ 120 with dist² ≤ R², at most the image size |
| HitTest.FirstMin | ProcessWaferImage.py:794-809 | the first eligible distance at the minimum; None exactly when none is eligible; earlier eligible entries are strictly larger |
| HitTest.EmptyCacheNoHit | ProcessWaferImage.py:794-809 | an empty cache never yields a die |
| HitTest.TkHitCharacterised | ProcessWaferImage.py:794-809 | Tk finds a die exactly when some centre is below squared distance 2500; no die is strictly closer and ties go to the first in cache order |
| HitTest.QtHitCharacterised | WaferAnnotator_pyqt.py:601-614 | Qt returns the first closest die only when a rectangle exists and its squared distance is below w² + h² |
| HitTest.MinUnderTolerance | WaferAnnotator_pyqt.py:601-614 | a tolerance that the overall minimum meets does not change which entry is picked |
| HitTest.FrontendsHitAlike | WaferAnnotator_pyqt.py:601-614 | when the nearest centre is within both thresholds, both front ends pick the same die |
| HitTest.FindClickedDie | ProcessWaferImage.py:794-809 | the running-minimum loop returns the die `Hit` specifies |
| Report.Zeros | ProcessWaferImage.py:636 | the histogram starts with all 18 labels at 0 |
| Report.TallyOf | ProcessWaferImage.py:636-660 | in-circle = clean + masked, at most the cache size, and the 18-bucket histogram sums to the clean count |
| Report.AddDie | ProcessWaferImage.py:645-660 | one die adds 1 to in-circle when strictly inside the circle, and then 1 to masked or to clean and its label |
| Report.ClearMaskAllClean | ProcessWaferImage.py:636-660 | with a clear mask no die is masked and every die in the circle is clean |
| Report.NameShiftPeriodic | ProcessWaferImage.py:824-838 | shifting the naming origin by whole 3 × 6 blocks keeps every label |
| Report.TallyPeriodicInShift | ProcessWaferImage.py:636-660 | the whole tally is unchanged by such a shift |
| Report.FrontendsTallyAlike | WaferAnnotator_pyqt.py:651-666 | with alpha in {0, 128} and centres inside the image, both front ends tally alike |
| Report.Estimate | WaferAnnotator_pyqt.py:649 | the estimate times the nominal area is the clean area; Qt gives 0 when the nominal area is not positive |
| Report.FiguresOf | ProcessWaferImage.py:625-634 | the circle area is π R², split into the masked area (at most the image area) and the clean area; the estimate times the nominal die area gives back the clean area (Qt: 0 for a non-positive nominal area); the dies inside the circle split into clean and masked, and the per-label counts add up to the clean ones |
| Report.GenerateReport | ProcessWaferImage.py:609-660 | a report is produced only with a cache, a rectangle and a circle (and, for Tk, a non-zero nominal area) |
| Report.ReportRefusals | ProcessWaferImage.py:610-622 | the report is refused for pending edits in grid mode (Tk) or any pending edit (Qt), else for missing inputs, else for a zero Tk nominal area, each exactly |
| Report.TallyDies | ProcessWaferImage.py:636-660 | the counting loop over the cache computes `TallyOf` |
| Report.BuildReport | WaferAnnotator_pyqt.py:616-666 | reading the mask buffer, the method computes `Report.GenerateReport` |
| Session.TableOfNoNodes | WaferAnnotator_pyqt.py:351-382 | with a negative Max_C or Max_R the interpolation loops fill nothing |
| Session.FillColumn | ProcessWaferImage.py:321-355 | the inner loop adds column C's nodes to the table |
| Session.NodeTable | ProcessWaferImage.py:316-355 | the nested loop builds exactly the interpolation table |
| Session.AppendColumn | ProcessWaferImage.py:225-238 | the inner commit loop appends column C's dies in row order |
| Session.CommitCache | ProcessWaferImage.py:214-240 | the nested commit loop builds exactly the committed cache, which is empty when there are no rows |
| Session.CommitColumns | ProcessWaferImage.py:224-238 | the outer loop over the columns appends each column's dies in column order |
| Session.NoRowsNoCache | ProcessWaferImage.py:224-226 | with no rows the loops cache no die |
| Session.FirstNearFrom | ProcessWaferImage.py:515-523 | the index found is the first control point from `from` within the pick radius |
| Session.PickedScp | ProcessWaferImage.py:505-526 | the picked control point lies within the pick radius, and none is picked only when every point is outside it |
| Session.PickedScpIsFirst | ProcessWaferImage.py:517-523 | every control point before the pick in insertion order lies outside the pick radius, so the `break` takes the first one within it |
| Session.ScanControlPoints | ProcessWaferImage.py:515-526 | the scan with `break` returns the pick `PickedScp` specifies |
| Session.PickRadiusSq | ProcessWaferImage.py:513-514 | the squared pick radius (10 / zoom)² is positive |
| Session.DragRect | ProcessWaferImage.py:582-594 | the normalised die rectangle has non-negative sides |
| Session.QtDropsDragFromOrigin | WaferAnnotator_pyqt.py:316 | a Qt drag started at the image origin is ignored on release, although its rectangle is non-degenerate |
| Session.ReleaseGuardsAgree | WaferAnnotator_pyqt.py:316-322 | away from that start point the written release guard equals the intended one |
| Session.DragTarget | ProcessWaferImage.py:567-575 | Tk clamps a dragged control point into [0, W] × [0, H], keeping points already inside; Qt moves it unclamped |
| Session.LatticeCacheComplete | ProcessWaferImage.py:214-240 | the commit of any lattice has keys exactly [0, Max_C) × [0, Max_R), Max_C · Max_R entries, no cell twice |
| Session.CommitLatticeCache | ProcessWaferImage.py:214-249 | the interpolation then commit loops together build `LatticeCache` |
| Session.Annotator.constructor | ProcessWaferImage.py:186-206 | a loaded image starts idle with no circle, rectangle, lattice or cache, no pending circle points, drag start or dragged control point, shift (0, 0), APPLY off and a clear mask |
| Session.Annotator.CommitLattice | ProcessWaferImage.py:214-249 | over a lattice, the cache becomes the commit of the current lattice and the APPLY flag is cleared |
| Session.Annotator.Commit | ProcessWaferImage.py:214-249 | without control points commit changes nothing; otherwise it rebuilds the cache from the lattice and clears APPLY, so committing twice gives the same cache |
| Session.Annotator.InitializeFfdMesh | ProcessWaferImage.py:1053-1137 | succeeds exactly when `InitializeMesh` does, then stores its lattice and grid and commits it; on failure the lattice and cache stay empty |
| Session.Annotator.SetOtherMode | ProcessWaferImage.py:251-259 | leaving grid mode commits the lattice; the new mode is set and the circle points, rectangle start and dragged point are dropped |
| Session.Annotator.ResetInput | ProcessWaferImage.py:255-259 | the mode is set and the pending circle points, rectangle start and dragged control point are dropped |
| Session.Annotator.SetGridMode | ProcessWaferImage.py:274-285 | entering grid mode initialises a missing lattice; a failed Qt initialisation falls back to idle; an existing lattice and cache are kept |
| Session.Annotator.SetMode | WaferAnnotator_pyqt.py:215-243 | any mode other than grid mode is entered and committed into; grid mode is entered whenever a lattice exists (always for Tk) |
| Session.Annotator.ToggleGridMode | ProcessWaferImage.py:207-212 | from grid mode it commits and goes idle; otherwise it enters grid mode, keeping an existing lattice and cache, or initialises a missing lattice and commits it, a failed Qt initialisation falling back to idle |
| Session.Annotator.ClickCirclePoint | ProcessWaferImage.py:483-491 | the first two clicks are collected; the third fits the circle (kept on rejection), drops the points and, for Tk, installs the stencil |
| Session.Annotator.PressRectangle | ProcessWaferImage.py:493-494 | a press in rectangle mode records the drag start |
| Session.Annotator.ReleaseRectangle | ProcessWaferImage.py:582-594 | a release after a press sets the normalised die rectangle and empties the control points and the cache |
| Session.Annotator.PaintMaskStroke | ProcessWaferImage.py:910-927 | without a stencil a stroke does nothing; with one the mask becomes the clipped stroke |
| Session.Annotator.ClearMask | ProcessWaferImage.py:855-861 | every mask sample becomes 0 |
| Session.Annotator.PickControlPoint | ProcessWaferImage.py:505-526 | with a lattice, the dragged control point becomes the first one within the pick radius, or none |
| Session.Annotator.PickControlPointUnderMouse | WaferAnnotator_pyqt.py:280-286 | the dragged control point becomes the lattice point under the mouse, or none |
| Session.Annotator.DragControlPoint | ProcessWaferImage.py:567-575 | a drag moves exactly the active control point to the drag target and sets APPLY; the cache is untouched |
| Session.Annotator.ReleaseControlPoint | ProcessWaferImage.py:604-605 | releasing the mouse drops the dragged control point |
| Session.Annotator.SetNamingOrigin | ProcessWaferImage.py:533-536 | the naming shift becomes the chosen die |
| Session.Annotator.ClickNamingOrigin | ProcessWaferImage.py:528-545 | a click on a die sets the naming shift to it and goes idle; a Tk click with no cache does nothing and a Tk miss goes idle; a Qt miss stays in naming mode |
| Session.Annotator.GenerateReport | ProcessWaferImage.py:609-660 | the report is `Report.GenerateReport` on the current state, and is refused for pending edits exactly when APPLY is set |

## Left out

- Image loading and reset (`load_image`) are only modelled as the constructor's fresh state. In the source a reload in grid mode with pending edits can leave the APPLY button enabled over an empty lattice; the model's invariant excludes that state.
- The live `interpolated_points` table is not kept as a field. Each commit recomputes it (`Session.CommitLatticeCache`), which is what the source does before reading it.
- PIL `ImageDraw` line, ellipse and rectangle rasterisation is a parameter: the stroke footprint and the circle-stencil disc are given as a pixel set and a boolean array, because they are foreign library calls.
- Qt painting composes the stroke with SourceOver alpha blending under a clip path. That blend is not modelled, because it is floating-point image compositing in Qt; `Session.Annotator.PaintMaskStroke` covers the Tk stroke only. The session invariant's alpha domain {0, 128} is therefore a fact about the Tk layer; real Qt alpha values can exceed 128.
- `math.sqrt` is not modelled. The circle radius is a parameter constrained by r ≥ 0 and r² = the fit's squared radius.
- `math.pi` is the constant 3.141592653589793. Float rounding is not modelled; reals are exact.
- Screen/image coordinate transforms, zoom and pan are left out, except that the pick radius takes the zoom level as a parameter.
- Drawing, message boxes, status text, logging, the report's text file and `root.after` debouncing are left out, because they are I/O and UI.
- The Qt graphics-item `isUnderMouse` hit test for control points is a parameter (`underMouse`), because it is a Qt scene query.
- The Qt toggle button's re-entrant `toggled` signal and the `mask_dirty` redraw flag are left out, because they only drive the UI.
- Session.Annotator.InitializeFfdMesh: requires an empty lattice, which holds at every call site in both front ends.
- Session.Annotator.SetMode: states less than `SetOtherMode` and `SetGridMode`, which it dispatches to and which carry the full contracts.
- Session.Annotator.ClickNamingOrigin: uses the function `HitTest.Hit`, whose loop `HitTest.FindClickedDie` is proved to compute it.
- Session.Annotator.PickControlPoint: uses the function `Session.PickedScp`, whose loop `Session.ScanControlPoints` is proved to compute it.
- Session.Annotator.SetGridMode: the nested Qt `set_mode(None)` after a failed initialisation is modelled as a plain reset to idle. No lattice exists then, so its commit would do nothing.
- The model uses the corrected forms from the Findings below (`MeshInit.GridCount`, `Ffd.QtPolygon`, `Session.ReleaseFinishes`). The written forms are modelled beside them.

## Findings

| source | as written | input that shows it | evidently intended | confidence | as-written member | corrected member |
|---|---|---|---|---|---|---|
| WaferAnnotator_pyqt.py:568-571 | `if self.Max_C == 0: self.Max_C = 1` only repairs zero; the Qt working span has no fallback and can be negative | an 800-pixel-wide image, a circle centred at x = 1000 with radius 100, 100-pixel dies: extent −100, `Max_C = -1` | at least one die per axis | not executed | MeshInit.QtGridCountGoesNegative | MeshInit.GridCountCovers |
| WaferAnnotator_pyqt.py:590 | `if p1 and p2 and p3 and p4` tests `QPointF` truthiness, false for the point (0, 0) | control point (0, 0) dragged to the image origin: node (0, 0) is (0, 0) and die (0, 0) is silently left out of the cache | keep every die whose four corners exist | not executed | Ffd.QtAsWrittenDropsDieAtOrigin | Ffd.CommittedCacheKeys |
| WaferAnnotator_pyqt.py:316 | `if self.mode == 'rectangle' and self.rect_start_pos` tests `QPointF` truthiness | a rectangle dragged from the image origin (0, 0) to (50, 40): the release is ignored | finish the drag whenever one was started | not executed | Session.QtDropsDragFromOrigin | Session.ReleaseGuardsAgree |
