/**
 * The boundary mask of one slice: for every cell (u, v) of the plane spanned by
 * the tangent and bitangent axes, whether solidity changes between the voxel at
 * the slice and the voxel one step back along the normal axis.
 */
module BoundaryMask {
  import opened Geometry
  import opened MaskIndex

  /** The occupancy oracle: whether the voxel at a lattice point is solid. */
  type Oracle = Vec3 -> bool

  /** The oracle's contract: nothing outside the volume is solid. */
  ghost predicate OracleBounded(occ: Oracle, dims: Dims) {
    forall p :: !InVolume(dims, p) ==> !occ(p)
  }

  /** Cell (u, v) of slice `slice` of the sweep along `norm` is a solid/empty transition. */
  predicate Boundary(occ: Oracle, norm: Axis, slice: int, u: int, v: int) {
    var curr := Place(norm, slice, u, v);
    occ(curr) != occ(curr.Sub(Unit(norm)))
  }

  /** A boundary cell is where the voxel of the slice and the voxel of the slice before differ. */
  lemma BoundaryBetweenSlices(occ: Oracle, norm: Axis, slice: int, u: int, v: int)
    ensures Boundary(occ, norm, slice, u, v)
        <==> occ(Place(norm, slice, u, v)) != occ(Place(norm, slice - 1, u, v))
  {
    PlaceStepBack(norm, slice, u, v);
  }

  /** Under the oracle's contract, slice 0 marks exactly the solid voxels of the first layer. */
  lemma NearShell(occ: Oracle, dims: Dims, norm: Axis, u: int, v: int)
    requires OracleBounded(occ, dims)
    ensures Boundary(occ, norm, 0, u, v) <==> occ(Place(norm, 0, u, v))
  {
    BoundaryBetweenSlices(occ, norm, 0, u, v);
    assert !InVolume(dims, Place(norm, -1, u, v)) by {
      AxisTriplePermutes(norm);
      PlaceAt(norm, -1, u, v);
    }
  }

  /** Under the oracle's contract, the cap slice marks exactly the solid voxels of the last layer. */
  lemma CapShell(occ: Oracle, dims: Dims, norm: Axis, u: int, v: int)
    requires OracleBounded(occ, dims)
    ensures Boundary(occ, norm, Extent(dims, norm), u, v)
        <==> occ(Place(norm, Extent(dims, norm) - 1, u, v))
  {
    BoundaryBetweenSlices(occ, norm, Extent(dims, norm), u, v);
    assert !InVolume(dims, Place(norm, Extent(dims, norm), u, v)) by {
      AxisTriplePermutes(norm);
      PlaceAt(norm, Extent(dims, norm), u, v);
    }
  }

  /** Slices before 0 or past the cap hold no boundary: the sweep's slice range misses no face. */
  lemma NoBoundaryOutsideSweep(occ: Oracle, dims: Dims, norm: Axis, slice: int, u: int, v: int)
    requires OracleBounded(occ, dims)
    requires slice < 0 || slice > Extent(dims, norm)
    ensures !Boundary(occ, norm, slice, u, v)
  {
    BoundaryBetweenSlices(occ, norm, slice, u, v);
    AxisTriplePermutes(norm);
    PlaceAt(norm, slice, u, v);
    PlaceAt(norm, slice - 1, u, v);
    assert !InVolume(dims, Place(norm, slice, u, v));
    assert !InVolume(dims, Place(norm, slice - 1, u, v));
  }

  /** Under the oracle's contract, cells outside a slice's plane hold no boundary: the plane misses no face. */
  lemma NoBoundaryOffPlane(occ: Oracle, dims: Dims, norm: Axis, slice: int, u: int, v: int)
    requires OracleBounded(occ, dims)
    requires !(0 <= u < Extent(dims, Tangent(norm)) && 0 <= v < Extent(dims, Bitangent(norm)))
    ensures !Boundary(occ, norm, slice, u, v)
  {
    BoundaryBetweenSlices(occ, norm, slice, u, v);
    AxisTriplePermutes(norm);
    PlaceAt(norm, slice, u, v);
    PlaceAt(norm, slice - 1, u, v);
    assert !InVolume(dims, Place(norm, slice, u, v));
    assert !InVolume(dims, Place(norm, slice - 1, u, v));
  }

  /** The row length of a sweep's mask: the extent along the tangent axis. */
  function Columns(dims: Dims, norm: Axis): nat {
    Extent(dims, Tangent(norm))
  }

  /** The number of rows of a sweep's mask: the extent along the bitangent axis. */
  function Rows(dims: Dims, norm: Axis): nat {
    Extent(dims, Bitangent(norm))
  }

  /** The number of cells of a sweep's mask (the mask's allocation size). */
  function PlaneSize(dims: Dims, norm: Axis): nat {
    Columns(dims, norm) * Rows(dims, norm)
  }

  /**
   * The first `k` rows of the mask the fill pass computes for one slice, as a
   * flat buffer of `k * cols` cells.
   */
  function MaskRows(occ: Oracle, norm: Axis, slice: int, cols: nat, k: nat): (m: seq<bool>)
    ensures |m| == ToIndex(0, k, cols)
  {
    if k == 0 then [] else
    ToIndexNextRow(k - 1, cols);
    MaskRows(occ, norm, slice, cols, k - 1) + seq(cols, u => Boundary(occ, norm, slice, u, k - 1))
  }

  /** Cell (u, v) of the first `k` rows sits at `ToIndex(u, v, cols)` and holds the transition there. */
  lemma {:induction false} MaskRowsAt(occ: Oracle, norm: Axis, slice: int, cols: nat, k: nat, u: nat, v: nat)
    requires u < cols && v < k
    ensures ToIndex(u, v, cols) < |MaskRows(occ, norm, slice, cols, k)|
    ensures MaskRows(occ, norm, slice, cols, k)[ToIndex(u, v, cols)] == Boundary(occ, norm, slice, u, v)
  {
    ToIndexNextRow(k - 1, cols);
    if v < k - 1 {
      MaskRowsAt(occ, norm, slice, cols, k - 1, u, v);
    }
  }

  /** The mask of one slice: every cell of its `Columns * Rows` plane. */
  function SliceMask(occ: Oracle, dims: Dims, norm: Axis, slice: int): (m: seq<bool>)
    ensures |m| == Columns(dims, norm) * Rows(dims, norm)
  {
    RowStartIsProduct(Rows(dims, norm), Columns(dims, norm));
    MaskRows(occ, norm, slice, Columns(dims, norm), Rows(dims, norm))
  }

  /** The mask of a slice holds, at the index of each plane cell, whether that cell is a boundary. */
  lemma SliceMaskAt(occ: Oracle, dims: Dims, norm: Axis, slice: int, u: nat, v: nat)
    requires u < Columns(dims, norm) && v < Rows(dims, norm)
    ensures ToIndex(u, v, Columns(dims, norm)) < |SliceMask(occ, dims, norm, slice)|
    ensures SliceMask(occ, dims, norm, slice)[ToIndex(u, v, Columns(dims, norm))]
         == Boundary(occ, norm, slice, u, v)
  {
    MaskRowsAt(occ, norm, slice, Columns(dims, norm), Rows(dims, norm), u, v);
  }

  /**
   * The fill pass over one slice: writes every cell of the mask, row by row,
   * with the transition between the slice and the slice before it.
   */
  method FillMask(mask: array<bool>, dims: Dims, occ: Oracle, norm: Axis, slice: nat)
    requires mask.Length == PlaneSize(dims, norm)
    modifies mask
    ensures mask[..] == SliceMask(occ, dims, norm, slice)
  {
    var tan, biTan := Tangent(norm), Bitangent(norm);
    var cols, rows := Extent(dims, tan), Extent(dims, biTan);
    ghost var want := SliceMask(occ, dims, norm, slice);
    ghost var k := 0;  // the flat index of the cursor: cells are written in index order
    var v := 0;
    while v < rows
      invariant 0 <= v <= rows
      invariant k == ToIndex(0, v, cols) <= mask.Length
      invariant forall i :: 0 <= i < k ==> mask[i] == want[i]
    {
      RowStartInBounds(v + 1, cols, rows);
      ToIndexNextRow(v, cols);
      ghost var rowStart := k;
      var u := 0;
      while u < cols
        invariant 0 <= u <= cols
        invariant k == rowStart + u <= mask.Length
        invariant forall i :: 0 <= i < k ==> mask[i] == want[i]
      {
        var curr := Place(norm, slice, u, v);
        var inSlice := occ(curr);
        var inPrevious := occ(curr.Sub(Unit(norm)));
        var i := ToIndex(u, v, cols);
        SliceMaskAt(occ, dims, norm, slice, u, v);
        mask[i] := inSlice != inPrevious;
        u, k := u + 1, k + 1;
      }
      v := v + 1;
    }
    RowStartIsProduct(rows, cols);
    assert mask[..] == want;
  }
}
