# Greedy voxel remesher, modelled in Dafny

The remesher turns a rectangular volume of voxels into quads. The volume is given by its dimensions and an occupancy oracle that says whether an integer lattice cell is solid. The quads cover exactly the faces where a solid cell meets an empty one, and adjacent coplanar faces are merged greedily into rectangles. The remesher works in three parts:

- **Axis/slice driver.** It sweeps the normal axis `norm` over x, y and z. The tangent axis is `(norm + 1) % 3` and the bitangent axis is `(norm + 2) % 3`. Each sweep visits slices `0 .. dims[norm]` inclusive; the last one is the "cap" slice. The driver allocates one mask per sweep, sized tangent extent × bitangent extent.
- **Boundary mask builder.** For every cell (u, v) of a slice's plane it stores, at the flat index `v * dims[tan] + u`, whether the voxel at the slice differs from the voxel one step back along the normal.
- **Greedy rectangle merger.** It scans the mask row by row:
  - it skips false cells;
  - from each true cell it grows the width along the row, then the height one complete row at a time;
  - it emits the quad `b, b+du, b+du+dv, b+dv`, clears the rectangle and skips past it.

The modules follow that structure:

- `Geometry` (geometry.dfy) holds lattice vectors, the axis triple, the slice cursor `Place`, plane rectangles, and quads. It has the corner construction `QuadOf` and its inverse `FaceOf`.
- `MaskIndex` (mask_index.dfy) holds the flat index `to_index`.
- `BoundaryMask` (boundary_mask.dfy) holds:
  - the oracle type and its contract (`OracleBounded`: nothing outside the volume is solid);
  - the boundary predicate;
  - the reference mask of a slice (`SliceMask`);
  - the imperative fill pass over a `bool` array (`FillMask`).
- `GreedyMerge` (greedy_merge.dfy) holds the merger as imperative methods over the same array:
  - width growth, height growth (the `goto` early exit is a labelled `break`), and clearing;
  - the scan loop `MergeSlice`, which carries the merge invariant;
  - the rectangle, coverage and area predicates.
- `Remesher` (remesher.dfy) holds the driver: `GreedyRemesher`, which loops over the axes, `SweepAxis`, which loops over the slices, and `ProcessSlice`, the body of one slice. `SweepInv`, the sweep invariant, relates the quads emitted so far to the slices already visited. Ghost faces (normal axis, slice, rectangle) stand for the quads, and `QuadsOf` ties the two together.

What is proved about `GreedyRemesher`:

- Every quad decodes to a face that lies in the volume, on a slice from 0 to the cap.
- The faces cover exactly the boundary cells of every slice of every sweep, and no two faces share a cell.
- The total face area equals the number of boundary cells, so there are at most as many quads as boundary cells.
- An oracle that is false everywhere gives no quads.
- Under the oracle's contract, the coverage extends to the whole lattice (`SurfaceComplete`).
- A single solid voxel in a 1×1×1 volume gives exactly six quads (`UnitVoxelSixQuads`), one on slice 0 and one on the cap of each axis (`UnitVoxelAllSides`).

## Model

| member | source | states |
|---|---|---|
| MaskIndex.ToIndex | greedy_remesher.cpp:8-14 | the flat index `v * sz + u` of cell (u, v); its properties are the five lemmas below |
| MaskIndex.ToIndexInBounds | greedy_remesher.cpp:8-14 | a cell (u, v) with u < sz and v < rows has an index below sz * rows, so every mask access fits the buffer allocated at line 41 |
| MaskIndex.ToIndexInjective | greedy_remesher.cpp:8-14 | two in-range cells with the same index are the same cell |
| MaskIndex.ToIndexOnto | greedy_remesher.cpp:8-14 | every buffer index is the index of cell (i % sz, i / sz), which is in range |
| MaskIndex.ToIndexRoundTrip | greedy_remesher.cpp:8-14 | the index of (u, v) gives back u as remainder and v as quotient |
| MaskIndex.RowStartInBounds | greedy_remesher.cpp:8-14 | the start of any row up to `rows` is at most the buffer size |
| MaskIndex.ToIndexNextRow | greedy_remesher.cpp:8-14 | the index one past the end of row v is the start of row v + 1 |
| MaskIndex.RowsApart | greedy_remesher.cpp:8-14 | a later row starts at least one whole row after an earlier one |
| Geometry.Tangent | greedy_remesher.cpp:32 | the tangent axis differs from the normal axis |
| Geometry.Bitangent | greedy_remesher.cpp:33 | the bitangent axis differs from both the normal and the tangent axis |
| Geometry.AxisTriplePermutes | greedy_remesher.cpp:27-33 | normal, tangent and bitangent together are exactly {0, 1, 2} |
| Geometry.Place | greedy_remesher.cpp:49-55 | the voxel cursor of cell (u, v) of a slice; what it holds on each axis is `PlaceAt` |
| Geometry.PlaceAt | greedy_remesher.cpp:49-55 | the voxel cursor has the slice on the normal axis, u on the tangent axis and v on the bitangent axis |
| Geometry.PlaceStepBack | greedy_remesher.cpp:63-67 | the cursor minus the normal vector is the cursor of the previous slice |
| Geometry.WithAt | greedy_remesher.cpp:37-38 | setting one component of a vector leaves the other two unchanged |
| Geometry.AddSubAt | greedy_remesher.cpp:126-128 | vector addition and subtraction work component by component |
| Geometry.QuadOf | greedy_remesher.cpp:110-129 | the corner construction `b, b+du, b+du+dv, b+dv` of a face; its corners are stated by `QuadCorners` and its inverse by `FaceOfQuadOf` |
| Geometry.QuadCorners | greedy_remesher.cpp:110-129 | the corners b, b+du, b+du+dv, b+dv of a quad are the cursors of the rectangle's corners (x, y), (x+w, y), (x+w, y+h) and (x, y+h) on the slice |
| Geometry.FaceOfQuadOf | greedy_remesher.cpp:110-129 | the corner construction loses nothing: the slice, the normal axis and the rectangle of a non-empty face can be read back from its quad |
| Geometry.OverlapWitness | greedy_remesher.cpp:132-142 | two overlapping rectangles really share a named cell |
| BoundaryMask.Boundary | greedy_remesher.cpp:63-70 | the mask value of a cell, `occ(curr) != occ(curr - normal)`; its meaning is stated by `BoundaryBetweenSlices` and the shell lemmas |
| BoundaryMask.BoundaryBetweenSlices | greedy_remesher.cpp:57-70 | a mask cell is a boundary exactly when the voxel of the slice and the voxel of the slice before differ |
| BoundaryMask.NearShell | greedy_remesher.cpp:57-62 | under the oracle's contract, slice 0 marks exactly the solid voxels of the first layer |
| BoundaryMask.CapShell | greedy_remesher.cpp:43-45 | under the oracle's contract, the cap slice dims[norm] marks exactly the solid voxels of the last layer |
| BoundaryMask.NoBoundaryOutsideSweep | greedy_remesher.cpp:45 | under the oracle's contract, a slice before 0 or past the cap holds no boundary, so the slice range misses no face |
| BoundaryMask.NoBoundaryOffPlane | greedy_remesher.cpp:53-55 | under the oracle's contract, a cell outside the tangent × bitangent plane holds no boundary |
| BoundaryMask.MaskRows | greedy_remesher.cpp:53-72 | the first k rows of the reference mask take k * cols cells |
| BoundaryMask.MaskRowsAt | greedy_remesher.cpp:53-72 | cell (u, v) of the first k rows sits at the index of (u, v) and holds the boundary value there |
| BoundaryMask.SliceMask | greedy_remesher.cpp:41-72 | the reference mask of a slice has one cell per cell of the tangent × bitangent plane |
| BoundaryMask.SliceMaskAt | greedy_remesher.cpp:53-71 | at the index of every plane cell, the reference mask holds whether that cell is a boundary |
| BoundaryMask.FillMask | greedy_remesher.cpp:49-72 | after the fill loops, the whole mask buffer equals the reference mask of the slice |
| GreedyMerge.CellAtUpdate | greedy_remesher.cpp:136-140 | writing one mask cell changes that cell and no other |
| GreedyMerge.CountTrue | greedy_remesher.cpp:75-146 | a mask has no more true cells than cells |
| GreedyMerge.CountTrueClear | greedy_remesher.cpp:140 | clearing one true cell lowers the count of true cells by exactly one |
| GreedyMerge.CountTrueZero | greedy_remesher.cpp:75-146 | the count of true cells is zero exactly when every cell is false |
| GreedyMerge.CoveredByMember | greedy_remesher.cpp:124-129 | a cell of any emitted rectangle counts as covered |
| GreedyMerge.CoveredHasMember | greedy_remesher.cpp:124-129 | a covered cell belongs to a named emitted rectangle |
| GreedyMerge.SumAreaAtLeastCount | greedy_remesher.cpp:88-107 | each rectangle has at least one cell, so the total area is at least the number of rectangles |
| GreedyMerge.GrowWidth | greedy_remesher.cpp:87-93 | 1 <= width, x + width <= cols, cells x .. x+width-1 of row y are true, and either the row ends at x + width or cell (x + width, y) is false |
| GreedyMerge.GrowHeight | greedy_remesher.cpp:95-107 | 1 <= height, y + height <= rows, rows y+1 .. y+height-1 are true across the strip, and either the plane ends at row y + height or some cell of that row's strip is false, so no row is partly absorbed |
| GreedyMerge.StackRows | greedy_remesher.cpp:87-107 | a true row y plus true rows below it make the whole width × height rectangle true |
| GreedyMerge.ClearRow | greedy_remesher.cpp:134-141 | one row of the rectangle is set false and every other cell is unchanged; if that row was all true, the count of true cells drops by the width |
| GreedyMerge.ClearRect | greedy_remesher.cpp:131-142 | exactly the width × height rectangle at (x, y) is set false and every other cell is unchanged; if the rectangle was all true, the count drops by its area |
| GreedyMerge.MergeStart | greedy_remesher.cpp:75-77 | the merge invariant holds before the scan, with no rectangles |
| GreedyMerge.MergeSkip | greedy_remesher.cpp:81-85 | stepping past a false cell keeps the merge invariant |
| GreedyMerge.MergeNextRow | greedy_remesher.cpp:75-77 | moving to the next row at the end of a row keeps the merge invariant |
| GreedyMerge.FreshRectDisjoint | greedy_remesher.cpp:109-142 | a rectangle of cells that are still true shares no cell with the rectangles already emitted |
| GreedyMerge.MergeEmit | greedy_remesher.cpp:109-144 | emitting the grown rectangle, clearing it and advancing x by the width keep the merge invariant |
| GreedyMerge.MergeDone | greedy_remesher.cpp:75-146 | at the end of the scan the mask is clear and the rectangles cover exactly the originally true cells, with area equal to their count |
| GreedyMerge.MergeSlice | greedy_remesher.cpp:74-146 | for one slice's mask: the mask ends all false; the rectangles lie in the plane, do not overlap and come in row-major order of their anchors; a plane cell is covered exactly when it was true; the total area equals the original number of true cells |
| Remesher.SliceFaces | greedy_remesher.cpp:109-129 | one face per rectangle of the slice |
| Remesher.QuadsOf | greedy_remesher.cpp:124-129 | one quad per face |
| Remesher.Faces | greedy_remesher.cpp:1-4 | one face read back per quad |
| Remesher.QuadsOfAppend | greedy_remesher.cpp:124 | appending the quads of two face lists in turn gives the quads of the concatenated list |
| Remesher.FacesOfQuads | greedy_remesher.cpp:110-129 | non-empty faces are read back unchanged from their quads |
| Remesher.FacesCoverHasFace | greedy_remesher.cpp:124-129 | a covered cell lies on a named face |
| Remesher.SliceFacesCover | greedy_remesher.cpp:109-129 | a cell of the current slice is covered by that slice's faces exactly when the merger covered it |
| Remesher.SliceFacesArea | greedy_remesher.cpp:109-129 | the faces of a slice have the total area of its rectangles |
| Remesher.TotalAreaAtLeastCount | greedy_remesher.cpp:109-129 | faces in the volume number no more than their total area |
| Remesher.SweepStart | greedy_remesher.cpp:22-27 | the sweep invariant holds with no quads before the first axis |
| Remesher.CoverNextSlice | greedy_remesher.cpp:45-146 | faces of the new slice leave the coverage of the earlier slices unchanged, and the coverage of the new slice is the merger's |
| Remesher.SliceFacesDisjoint | greedy_remesher.cpp:109-146 | the faces of the new slice overlap neither one another nor any earlier face |
| Remesher.SweepSlice | greedy_remesher.cpp:45-146 | processing one slice keeps the sweep invariant, one slice further on |
| Remesher.SweepNextAxis | greedy_remesher.cpp:27-45 | after the cap slice of one axis, the invariant holds at slice 0 of the next axis |
| Remesher.EmptySlice | greedy_remesher.cpp:66-70 | an oracle that is false everywhere has no true cell in any slice's mask |
| Remesher.SweepsEmpty | greedy_remesher.cpp:27-47 | an oracle that is false everywhere has no boundary cell in any sweep |
| Remesher.EmptyOracleNoBoundary | greedy_remesher.cpp:27-47 | an oracle that is false everywhere has a boundary count of zero for the whole volume |
| Remesher.SurfaceComplete | greedy_remesher.cpp:43-62 | under the oracle's contract, faces that cover exactly the boundary cells of every visited slice cover exactly the boundary cells anywhere in the lattice |
| Remesher.UnitVoxelBoundary | greedy_remesher.cpp:57-70 | for one solid voxel at the origin, cell (0, 0) of slices 0 and 1 of every sweep is a boundary |
| Remesher.SingleCellCount | greedy_remesher.cpp:53-72 | a one-cell plane whose cell is a boundary has one true cell |
| Remesher.UnitVoxelSlice | greedy_remesher.cpp:45-72 | in the 1×1×1 volume with one solid voxel, the near slice and the cap of each sweep each hold one boundary cell |
| Remesher.SweepOfTwoSlices | greedy_remesher.cpp:45 | a sweep of two slices with one boundary cell each counts two |
| Remesher.ThreeSweepsOfTwo | greedy_remesher.cpp:27 | three sweeps of two boundary cells each count six |
| Remesher.UnitVoxelCount | greedy_remesher.cpp:27-72 | the 1×1×1 volume with one solid voxel has six boundary cells |
| Remesher.UnitFacesArea | greedy_remesher.cpp:109-129 | faces of one cell each have a total area equal to their number |
| Remesher.UnitVoxelFaces | greedy_remesher.cpp:88-107 | every face inside the 1×1×1 volume is a single cell |
| Remesher.UnitVoxelSixQuads | greedy_remesher.cpp:16-151 | quads whose faces lie in the 1×1×1 volume and whose total area is the volume's boundary count are exactly six (which sides they lie on is `UnitVoxelAllSides`) |
| Remesher.UnitVoxelAllSides | greedy_remesher.cpp:27-146 | quads that cover exactly the boundary cells of the one-voxel volume, as the remesher's output does, include a face on slice 0 and on the cap of every axis: with `UnitVoxelSixQuads`, one quad per side of the cube |
| Remesher.FlatPlaneNoFaces | greedy_remesher.cpp:53-55 | a sweep whose tangent or bitangent extent is zero contributes no face |
| Remesher.ProcessSlice | greedy_remesher.cpp:45-146 | the fill and merge of one slice keep the earlier faces and quads as a prefix, append only faces on this slice (normal `norm`, slice `slice`), leave the mask all false, and carry the sweep invariant one slice further |
| Remesher.SweepAxis | greedy_remesher.cpp:32-47 | one sweep over slices 0 to the cap carries the sweep invariant from slice 0 to past the cap |
| Remesher.GreedyRemesher | greedy_remesher.cpp:16-151 | every quad decodes to a face in the volume; within each visited slice, the faces cover exactly the boundary cells; no two faces overlap; the total area equals the number of boundary cells, so there are at most that many quads; an oracle false everywhere gives no quads |

## Left out

- Fixed-width integers: `size_t` and `uint32_t` index arithmetic and the `uvec3`/`ivec3` casts (lines 12-13, 49, 63, 67) are modelled with unbounded integers. The source does not guard against overflow; sizes are assumed to be sane.
- The `glm` vector types and the `std::function` wrapper: vectors are the `Vec3` integer triple, and the oracle is a total Dafny function value `Vec3 -> bool`.
- The oracle's contract (false outside the volume) is the predicate `OracleBounded`. Only the lemmas about the shell and the whole lattice (`NearShell`, `CapShell`, `NoBoundaryOutsideSweep`, `NoBoundaryOffPlane`, `SurfaceComplete`) need it. The remesher itself is specified for any oracle, and then its coverage statement is about the slices it visits.
- Allocation failure of the mask or of the quad vector is a resource concern and is not modelled.
- Optimality: the greedy merge promises no minimum number of rectangles, so none is stated.
- The facing sign of a quad: the source compares with a symmetric `!=` (line 70) and never records which side is solid. The model doesn't record it either.
- No parallel execution of the three sweeps is modelled.
- Determinism (two calls give the same quads) is not stated as a lemma. Every step of the model is a deterministic method over its inputs.
- MergeSlice: returns the slice's rectangles, and `ProcessSlice` appends one quad per rectangle afterwards, in the same order. The source instead pushes each quad from inside the scan (line 124). Nothing reads the quad vector in between, so the output is the same.
- MergeSlice: does not state, in its own contract, that each rectangle is the greedy choice for the mask at the moment it was found. That fact is stated per rectangle by the contracts of `GrowWidth` and `GrowHeight`, which the scan calls.
- GreedyRemesher: characterises its output as a disjoint, exact cover of the boundary cells of the visited slices, with matching area. It does not state that the output is the particular sequence the greedy rules produce. That sequence is fixed by the method's body together with the contracts of `GrowWidth`, `GrowHeight` and `ClearRect`.
- The mask buffer is allocated once per sweep, as at line 41, and is fully rewritten by the fill pass of every slice. The model does not rely on its value-initialised contents.
- The inner loops are written as separate methods, each with a loop of its own: `GrowWidth`, `GrowHeight`, `ClearRow`, `ClearRect` and `SweepAxis` (the slices of one axis). The body of one slice is the method `ProcessSlice`, which has no loop of its own: it calls `FillMask` and `MergeSlice`.
