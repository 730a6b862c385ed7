/**
 * The remesher's driver: sweeps the normal axis over x, y and z, visits every
 * slice of each sweep including the cap, builds the slice's boundary mask,
 * merges it into rectangles and emits one quad per rectangle.
 */
module Remesher {
  import opened Geometry
  import opened MaskIndex
  import opened BoundaryMask
  import opened GreedyMerge

  /** The faces the rectangles of one slice stand for, in the order they were found. */
  function SliceFaces(norm: Axis, slice: int, rects: seq<Rect>): (fs: seq<Face>)
    ensures |fs| == |rects|
  {
    seq(|rects|, i requires 0 <= i < |rects| => Face(norm, slice, rects[i]))
  }

  /** The quads emitted for a list of faces, one each, in order. */
  function QuadsOf(fs: seq<Face>): (qs: seq<Quad>)
    ensures |qs| == |fs|
  {
    seq(|fs|, i requires 0 <= i < |fs| => QuadOf(fs[i]))
  }

  /** The faces read back from a list of quads. */
  function Faces(quads: seq<Quad>): (fs: seq<Face>)
    ensures |fs| == |quads|
  {
    seq(|quads|, i requires 0 <= i < |quads| => FaceOf(quads[i]))
  }

  /** Emitting two lists of faces one after the other emits their quads one after the other. */
  lemma QuadsOfAppend(fs: seq<Face>, gs: seq<Face>)
    ensures QuadsOf(fs + gs) == QuadsOf(fs) + QuadsOf(gs)
  {
    assert QuadsOf(fs + gs) == QuadsOf(fs) + QuadsOf(gs);
  }

  /** Non-empty faces are read back unchanged from the quads emitted for them. */
  lemma FacesOfQuads(fs: seq<Face>)
    requires forall i :: 0 <= i < |fs| ==> 1 <= fs[i].rect.w && 1 <= fs[i].rect.h
    ensures Faces(QuadsOf(fs)) == fs
  {
    forall i | 0 <= i < |fs|
      ensures Faces(QuadsOf(fs))[i] == fs[i]
    {
      FaceOfQuadOf(fs[i]);
    }
  }

  /** The face lies in a slice of its sweep (0 up to the cap) and inside that slice's plane. */
  predicate FaceInVolume(dims: Dims, f: Face) {
    0 <= f.slice <= Extent(dims, f.norm) && InGrid(f.rect, Columns(dims, f.norm), Rows(dims, f.norm))
  }

  /** Cell (u, v) of slice `slice` of the sweep along `norm` is on face `f`. */
  predicate OnFace(f: Face, norm: Axis, slice: int, u: int, v: int) {
    f.norm == norm && f.slice == slice && f.rect.Contains(u, v)
  }

  /** Some face of `fs` contains cell (u, v) of slice `slice` of the sweep along `norm`. */
  predicate FacesCover(fs: seq<Face>, norm: Axis, slice: int, u: int, v: int) {
    fs != [] && (FacesCover(fs[..|fs| - 1], norm, slice, u, v) || OnFace(fs[|fs| - 1], norm, slice, u, v))
  }

  /** Two faces of the same slice share a cell. */
  predicate FacesOverlap(f: Face, g: Face) {
    f.norm == g.norm && f.slice == g.slice && f.rect.Overlaps(g.rect)
  }

  /** No two faces of `fs` share a cell. */
  predicate FacesDisjoint(fs: seq<Face>) {
    forall i, j :: 0 <= i < j < |fs| ==> !FacesOverlap(fs[i], fs[j])
  }

  /** The total number of cells of the faces. */
  function TotalArea(fs: seq<Face>): int {
    if fs == [] then 0 else TotalArea(fs[..|fs| - 1]) + fs[|fs| - 1].rect.Area()
  }

  /** The number of boundary cells in slices 0 .. n - 1 of the sweep along `norm`. */
  function SweepCount(occ: Oracle, dims: Dims, norm: Axis, n: nat): nat {
    if n == 0 then 0 else SweepCount(occ, dims, norm, n - 1) + CountTrue(SliceMask(occ, dims, norm, n - 1))
  }

  /** The number of boundary cells in every slice, cap included, of the sweeps along axes 0 .. k - 1. */
  function AxesCount(occ: Oracle, dims: Dims, k: nat): nat
    requires k <= 3
  {
    if k == 0 then 0 else AxesCount(occ, dims, k - 1) + SweepCount(occ, dims, k - 1, Extent(dims, k - 1) + 1)
  }

  /** The number of boundary cells the three sweeps find in the volume. */
  function VolumeCount(occ: Oracle, dims: Dims): nat {
    AxesCount(occ, dims, 3)
  }

  /** Slice `s` of the sweep along `n` comes before slice `slice` of the sweep along `norm`. */
  predicate SweptBefore(n: int, s: int, norm: int, slice: int) {
    n < norm || (n == norm && s < slice)
  }

  /** The number of boundary cells in the slices before slice `slice` of the sweep along `norm`. */
  function CountBefore(occ: Oracle, dims: Dims, norm: nat, slice: nat): nat
    requires norm <= 3
  {
    if norm == 3 then AxesCount(occ, dims, 3) else AxesCount(occ, dims, norm) + SweepCount(occ, dims, norm, slice)
  }

  /** Every face lies in the volume, in a slice visited before slice `slice` of the sweep along `norm`. */
  predicate FacesSwept(dims: Dims, fs: seq<Face>, norm: int, slice: int) {
    forall i :: 0 <= i < |fs| ==> FaceInVolume(dims, fs[i]) && SweptBefore(fs[i].norm, fs[i].slice, norm, slice)
  }

  /** In every slice visited before slice `slice` of the sweep along `norm`, the faces cover exactly the boundary cells. */
  ghost predicate CoversBoundaries(occ: Oracle, dims: Dims, fs: seq<Face>, norm: int, slice: int) {
    forall n: Axis, s: int, u: int, v: int ::
      SweptBefore(n, s, norm, slice) && 0 <= s <= Extent(dims, n) &&
      0 <= u < Columns(dims, n) && 0 <= v < Rows(dims, n)
      ==> (Boundary(occ, n, s, u, v) <==> FacesCover(fs, n, s, u, v))
  }

  /**
   * The invariant of the sweep at slice `slice` of axis `norm`: the faces emitted
   * so far lie in the slices already visited, cover exactly their boundary
   * cells, do not overlap, and add up to their boundary cell count.
   */
  ghost predicate SweepInv(occ: Oracle, dims: Dims, fs: seq<Face>, norm: nat, slice: nat)
    requires norm <= 3
  {
    && FacesSwept(dims, fs, norm, slice)
    && CoversBoundaries(occ, dims, fs, norm, slice)
    && FacesDisjoint(fs)
    && TotalArea(fs) == CountBefore(occ, dims, norm, slice)
  }

  /** A covered cell lies on some face of `fs`. */
  lemma {:induction false} FacesCoverHasFace(fs: seq<Face>, norm: Axis, slice: int, u: int, v: int) returns (j: nat)
    requires FacesCover(fs, norm, slice, u, v)
    ensures j < |fs| && OnFace(fs[j], norm, slice, u, v)
  {
    if OnFace(fs[|fs| - 1], norm, slice, u, v) {
      j := |fs| - 1;
    } else {
      j := FacesCoverHasFace(fs[..|fs| - 1], norm, slice, u, v);
    }
  }

  /** Appending the faces of one slice covers, in that slice, exactly the cells its rectangles cover. */
  lemma {:induction false} SliceFacesCover(fs: seq<Face>, norm: Axis, slice: int, rects: seq<Rect>,
                                           n: Axis, s: int, u: int, v: int)
    ensures FacesCover(fs + SliceFaces(norm, slice, rects), n, s, u, v)
         == (FacesCover(fs, n, s, u, v) || (n == norm && s == slice && Covered(rects, u, v)))
  {
    if rects == [] {
      assert fs + SliceFaces(norm, slice, rects) == fs;
    } else {
      var k := |rects|;
      var all := fs + SliceFaces(norm, slice, rects);
      assert all[..|all| - 1] == fs + SliceFaces(norm, slice, rects[..k - 1]);
      SliceFacesCover(fs, norm, slice, rects[..k - 1], n, s, u, v);
    }
  }

  /** Appending the faces of one slice adds the areas of its rectangles. */
  lemma {:induction false} SliceFacesArea(fs: seq<Face>, norm: Axis, slice: int, rects: seq<Rect>)
    ensures TotalArea(fs + SliceFaces(norm, slice, rects)) == TotalArea(fs) + SumArea(rects)
  {
    if rects == [] {
      assert fs + SliceFaces(norm, slice, rects) == fs;
    } else {
      var k := |rects|;
      var all := fs + SliceFaces(norm, slice, rects);
      assert all[..|all| - 1] == fs + SliceFaces(norm, slice, rects[..k - 1]);
      SliceFacesArea(fs, norm, slice, rects[..k - 1]);
    }
  }

  /** Faces inside the volume have at least one cell each, so the area is at least the number of faces. */
  lemma {:induction false} TotalAreaAtLeastCount(dims: Dims, fs: seq<Face>)
    requires forall i :: 0 <= i < |fs| ==> FaceInVolume(dims, fs[i])
    ensures TotalArea(fs) >= |fs|
  {
    if fs != [] {
      var r := fs[|fs| - 1].rect;
      assert FaceInVolume(dims, fs[|fs| - 1]);
      assert r.w * r.h >= r.w * 1 >= 1;
      TotalAreaAtLeastCount(dims, fs[..|fs| - 1]);
    }
  }

  /** Before the first slice nothing has been emitted and nothing needs covering. */
  lemma SweepStart(occ: Oracle, dims: Dims)
    ensures SweepInv(occ, dims, [], 0, 0)
  {
  }

  /**
   * Appending the faces of the slice being emitted, whose rectangles cover
   * exactly its boundary cells, extends the coverage to that slice.
   */
  lemma CoverNextSlice(occ: Oracle, dims: Dims, fs: seq<Face>, norm: Axis, slice: nat, rects: seq<Rect>)
    requires FacesSwept(dims, fs, norm, slice) && CoversBoundaries(occ, dims, fs, norm, slice)
    requires forall u, v :: 0 <= u < Columns(dims, norm) && 0 <= v < Rows(dims, norm)
               ==> (Boundary(occ, norm, slice, u, v) <==> Covered(rects, u, v))
    ensures CoversBoundaries(occ, dims, fs + SliceFaces(norm, slice, rects), norm, slice + 1)
  {
    var all := fs + SliceFaces(norm, slice, rects);
    forall n: Axis, s: int, u: int, v: int |
        SweptBefore(n, s, norm, slice + 1) && 0 <= s <= Extent(dims, n) &&
        0 <= u < Columns(dims, n) && 0 <= v < Rows(dims, n)
      ensures Boundary(occ, n, s, u, v) <==> FacesCover(all, n, s, u, v)
    {
      SliceFacesCover(fs, norm, slice, rects, n, s, u, v);
      if n == norm && s == slice && FacesCover(fs, n, s, u, v) {
        var j := FacesCoverHasFace(fs, n, s, u, v);
        assert false;
      }
    }
  }

  /** The faces of a new slice overlap neither each other nor the faces of the slices before it. */
  lemma SliceFacesDisjoint(fs: seq<Face>, norm: Axis, slice: int, rects: seq<Rect>)
    requires forall i :: 0 <= i < |fs| ==> SweptBefore(fs[i].norm, fs[i].slice, norm, slice)
    requires FacesDisjoint(fs) && PairwiseDisjoint(rects)
    ensures FacesDisjoint(fs + SliceFaces(norm, slice, rects))
  {
    var all := fs + SliceFaces(norm, slice, rects);
    forall i, j | 0 <= i < j < |all|
      ensures !FacesOverlap(all[i], all[j])
    {
      if i >= |fs| {
        assert all[i] == Face(norm, slice, rects[i - |fs|]);
        assert all[j] == Face(norm, slice, rects[j - |fs|]);
      } else if j >= |fs| {
        assert all[i] == fs[i];
        assert all[j] == Face(norm, slice, rects[j - |fs|]);
      }
    }
  }

  /**
   * Emitting the faces of slice `slice` of the sweep along `norm` (rectangles
   * that lie in the plane, do not overlap and cover exactly the slice's
   * boundary cells) moves the sweep invariant on to the next slice.
   */
  lemma SweepSlice(occ: Oracle, dims: Dims, fs: seq<Face>, norm: Axis, slice: nat, rects: seq<Rect>)
    requires SweepInv(occ, dims, fs, norm, slice) && slice <= Extent(dims, norm)
    requires forall j :: 0 <= j < |rects| ==> InGrid(rects[j], Columns(dims, norm), Rows(dims, norm))
    requires PairwiseDisjoint(rects)
    requires forall u, v :: 0 <= u < Columns(dims, norm) && 0 <= v < Rows(dims, norm)
               ==> (Boundary(occ, norm, slice, u, v) <==> Covered(rects, u, v))
    requires SumArea(rects) == CountTrue(SliceMask(occ, dims, norm, slice))
    ensures SweepInv(occ, dims, fs + SliceFaces(norm, slice, rects), norm, slice + 1)
  {
    CoverNextSlice(occ, dims, fs, norm, slice, rects);
    SliceFacesDisjoint(fs, norm, slice, rects);
    SliceFacesArea(fs, norm, slice, rects);
    var all := fs + SliceFaces(norm, slice, rects);
    forall i | 0 <= i < |all|
      ensures FaceInVolume(dims, all[i]) && SweptBefore(all[i].norm, all[i].slice, norm, slice + 1)
    {
      if i >= |fs| {
        assert all[i] == Face(norm, slice, rects[i - |fs|]);
      }
    }
  }

  /** Past the cap of the sweep along `norm` the sweep along the next axis begins. */
  lemma SweepNextAxis(occ: Oracle, dims: Dims, fs: seq<Face>, norm: Axis)
    requires SweepInv(occ, dims, fs, norm, Extent(dims, norm) + 1)
    ensures SweepInv(occ, dims, fs, norm + 1, 0)
  {
  }

  /** An oracle with no solid voxel leaves every slice's mask clear. */
  lemma EmptySlice(occ: Oracle, dims: Dims, norm: Axis, slice: int)
    requires forall p :: !occ(p)
    ensures CountTrue(SliceMask(occ, dims, norm, slice)) == 0
  {
    var m := SliceMask(occ, dims, norm, slice);
    var cols := Columns(dims, norm);
    forall i | 0 <= i < |m|
      ensures !m[i]
    {
      ToIndexOnto(i, cols, Rows(dims, norm));
      SliceMaskAt(occ, dims, norm, slice, i % cols, i / cols);
    }
    CountTrueZero(m);
  }

  /** An oracle with no solid voxel has no boundary cell in any slice. */
  lemma EmptyOracleNoBoundary(occ: Oracle, dims: Dims)
    requires forall p :: !occ(p)
    ensures VolumeCount(occ, dims) == 0
  {
    forall norm: Axis, slice: int
      ensures CountTrue(SliceMask(occ, dims, norm, slice)) == 0
    {
      EmptySlice(occ, dims, norm, slice);
    }
    SweepsEmpty(occ, dims, 0, Extent(dims, 0) + 1);
    SweepsEmpty(occ, dims, 1, Extent(dims, 1) + 1);
    SweepsEmpty(occ, dims, 2, Extent(dims, 2) + 1);
    assert AxesCount(occ, dims, 1) == 0;
    assert AxesCount(occ, dims, 2) == 0;
  }

  /** Slices without boundary cells add nothing to a sweep's count. */
  lemma {:induction false} SweepsEmpty(occ: Oracle, dims: Dims, norm: Axis, n: nat)
    requires forall slice :: CountTrue(SliceMask(occ, dims, norm, slice)) == 0
    ensures SweepCount(occ, dims, norm, n) == 0
  {
    if n > 0 {
      SweepsEmpty(occ, dims, norm, n - 1);
    }
  }

  /**
   * Under the oracle's contract, faces that lie in the volume and cover exactly
   * the boundary cells of every swept slice cover exactly the boundary cells of
   * the whole lattice: no solid/empty transition anywhere lacks a face.
   */
  lemma SurfaceComplete(occ: Oracle, dims: Dims, fs: seq<Face>)
    requires OracleBounded(occ, dims)
    requires forall i :: 0 <= i < |fs| ==> FaceInVolume(dims, fs[i])
    requires forall n: Axis, s: int, u: int, v: int ::
               0 <= s <= Extent(dims, n) && 0 <= u < Columns(dims, n) && 0 <= v < Rows(dims, n)
               ==> (Boundary(occ, n, s, u, v) <==> FacesCover(fs, n, s, u, v))
    ensures forall n: Axis, s: int, u: int, v: int :: Boundary(occ, n, s, u, v) <==> FacesCover(fs, n, s, u, v)
  {
    forall n: Axis, s: int, u: int, v: int
      ensures Boundary(occ, n, s, u, v) <==> FacesCover(fs, n, s, u, v)
    {
      if !(0 <= s <= Extent(dims, n) && 0 <= u < Columns(dims, n) && 0 <= v < Rows(dims, n)) {
        if s < 0 || s > Extent(dims, n) {
          NoBoundaryOutsideSweep(occ, dims, n, s, u, v);
        } else {
          NoBoundaryOffPlane(occ, dims, n, s, u, v);
        }
        if FacesCover(fs, n, s, u, v) {
          var j := FacesCoverHasFace(fs, n, s, u, v);
          assert false;
        }
      }
    }
  }

  /** The oracle of a volume holding one solid voxel, at the origin. */
  predicate UnitVoxel(p: Vec3) {
    p == Zero
  }

  /** The volume is a single voxel. */
  predicate Cube1(dims: Dims) {
    dims.x == 1 && dims.y == 1 && dims.z == 1
  }

  /** The origin's cell is a boundary on the near (0) and far (1) slice of every sweep of the one-voxel oracle. */
  lemma UnitVoxelBoundary(n: Axis, s: int)
    requires 0 <= s <= 1
    ensures Boundary(UnitVoxel, n, s, 0, 0)
  {
    BoundaryBetweenSlices(UnitVoxel, n, s, 0, 0);
    PlaceAt(n, s, 0, 0);
    PlaceAt(n, s - 1, 0, 0);
    AxisTriplePermutes(n);
    SamePoint(Place(n, 0, 0, 0), Zero);
    assert Place(n, s, 0, 0).At(n) == s && Place(n, s - 1, 0, 0).At(n) == s - 1;
  }

  /** A one-cell plane whose cell is a boundary counts one. */
  lemma SingleCellCount(occ: Oracle, dims: Dims, n: Axis, s: int)
    requires Columns(dims, n) == 1 && Rows(dims, n) == 1
    requires Boundary(occ, n, s, 0, 0)
    ensures CountTrue(SliceMask(occ, dims, n, s)) == 1
  {
    var m := SliceMask(occ, dims, n, s);
    SliceMaskAt(occ, dims, n, s, 0, 0);
    assert m == [true];
  }

  /** In the one-voxel volume, the near and the far slice of each sweep hold one boundary cell. */
  lemma UnitVoxelSlice(dims: Dims, n: Axis, s: int)
    requires Cube1(dims) && 0 <= s <= 1
    ensures CountTrue(SliceMask(UnitVoxel, dims, n, s)) == 1
  {
    UnitVoxelBoundary(n, s);
    assert Columns(dims, n) == 1 && Rows(dims, n) == 1;
    SingleCellCount(UnitVoxel, dims, n, s);
  }

  /** A sweep of two slices with one boundary cell each counts two. */
  lemma SweepOfTwoSlices(occ: Oracle, dims: Dims, n: Axis)
    requires Extent(dims, n) == 1
    requires CountTrue(SliceMask(occ, dims, n, 0)) == 1 && CountTrue(SliceMask(occ, dims, n, 1)) == 1
    ensures SweepCount(occ, dims, n, Extent(dims, n) + 1) == 2
  {
    assert SweepCount(occ, dims, n, 1) == 1;
  }

  /** Three sweeps counting two each count six. */
  lemma ThreeSweepsOfTwo(occ: Oracle, dims: Dims)
    requires forall n: Axis :: SweepCount(occ, dims, n, Extent(dims, n) + 1) == 2
    ensures VolumeCount(occ, dims) == 6
  {
    assert AxesCount(occ, dims, 1) == 2;
    assert AxesCount(occ, dims, 2) == 4;
  }

  /** The one-voxel volume has six boundary cells: one on the near and far slice of each sweep. */
  lemma UnitVoxelCount(dims: Dims)
    requires Cube1(dims)
    ensures VolumeCount(UnitVoxel, dims) == 6
  {
    forall n: Axis
      ensures SweepCount(UnitVoxel, dims, n, Extent(dims, n) + 1) == 2
    {
      UnitVoxelSlice(dims, n, 0);
      UnitVoxelSlice(dims, n, 1);
      SweepOfTwoSlices(UnitVoxel, dims, n);
    }
    ThreeSweepsOfTwo(UnitVoxel, dims);
  }

  /** Faces of area one add up to their number. */
  lemma {:induction false} UnitFacesArea(fs: seq<Face>)
    requires forall i :: 0 <= i < |fs| ==> fs[i].rect.w == 1 && fs[i].rect.h == 1
    ensures TotalArea(fs) == |fs|
  {
    if fs != [] {
      UnitFacesArea(fs[..|fs| - 1]);
    }
  }

  /** Every face inside the one-voxel volume is a single cell. */
  lemma UnitVoxelFaces(dims: Dims, fs: seq<Face>)
    requires Cube1(dims)
    requires forall i :: 0 <= i < |fs| ==> FaceInVolume(dims, fs[i])
    ensures forall i :: 0 <= i < |fs| ==> fs[i].rect.w == 1 && fs[i].rect.h == 1
  {
    forall i | 0 <= i < |fs|
      ensures fs[i].rect.w == 1 && fs[i].rect.h == 1
    {
      var n := fs[i].norm;
      assert FaceInVolume(dims, fs[i]);
      assert Columns(dims, n) == 1 && Rows(dims, n) == 1;
    }
  }

  /** Quads meeting the remesher's contract for the one-voxel volume are six: one per side of the cube. */
  lemma UnitVoxelSixQuads(dims: Dims, quads: seq<Quad>)
    requires Cube1(dims)
    requires forall i :: 0 <= i < |quads| ==> FaceInVolume(dims, Faces(quads)[i])
    requires TotalArea(Faces(quads)) == VolumeCount(UnitVoxel, dims)
    ensures |quads| == 6
  {
    UnitVoxelCount(dims);
    UnitVoxelFaces(dims, Faces(quads));
    UnitFacesArea(Faces(quads));
  }

  /**
   * Quads covering exactly the boundary cells of the one-voxel volume include a
   * face on the near slice and on the cap of every sweep: all six sides of the cube.
   */
  lemma UnitVoxelAllSides(dims: Dims, quads: seq<Quad>, n: Axis, s: int)
    requires Cube1(dims) && 0 <= s <= 1
    requires forall n: Axis, s: int, u: int, v: int ::
               0 <= s <= Extent(dims, n) && 0 <= u < Columns(dims, n) && 0 <= v < Rows(dims, n)
               ==> (Boundary(UnitVoxel, n, s, u, v) <==> FacesCover(Faces(quads), n, s, u, v))
    ensures exists i :: 0 <= i < |quads| && Faces(quads)[i].norm == n && Faces(quads)[i].slice == s
  {
    UnitVoxelBoundary(n, s);
    assert Columns(dims, n) == 1 && Rows(dims, n) == 1;
    var i := FacesCoverHasFace(Faces(quads), n, s, 0, 0);
  }

  /** A sweep whose slice plane has no cells (a zero tangent or bitangent extent) yields no face. */
  lemma FlatPlaneNoFaces(dims: Dims, fs: seq<Face>, n: Axis)
    requires forall i :: 0 <= i < |fs| ==> FaceInVolume(dims, fs[i])
    requires Columns(dims, n) == 0 || Rows(dims, n) == 0
    ensures forall i :: 0 <= i < |fs| ==> fs[i].norm != n
  {
    forall i | 0 <= i < |fs|
      ensures fs[i].norm != n
    {
      assert FaceInVolume(dims, fs[i]);
    }
  }

  /**
   * One slice of a sweep: fill the mask with the slice's boundary cells, merge
   * it into rectangles, and append a quad per rectangle to `quads`; `fs` are
   * the faces the quads were emitted for.
   */
  method ProcessSlice(mask: array<bool>, dims: Dims, occ: Oracle, norm: Axis, slice: nat,
                      quads: seq<Quad>, ghost fs: seq<Face>)
    returns (out: seq<Quad>, ghost fs': seq<Face>)
    requires mask.Length == PlaneSize(dims, norm)
    requires slice <= Extent(dims, norm)
    requires quads == QuadsOf(fs) && SweepInv(occ, dims, fs, norm, slice)
    modifies mask
    ensures out == QuadsOf(fs') && SweepInv(occ, dims, fs', norm, slice + 1)
    ensures |fs'| >= |fs| && fs'[..|fs|] == fs && |out| >= |quads| && out[..|quads|] == quads
    ensures forall i :: |fs| <= i < |fs'| ==> fs'[i].norm == norm && fs'[i].slice == slice
    ensures forall i :: 0 <= i < mask.Length ==> !mask[i]
  {
    FillMask(mask, dims, occ, norm, slice);
    var rects := MergeSlice(mask, Columns(dims, norm), Rows(dims, norm));
    forall u, v | 0 <= u < Columns(dims, norm) && 0 <= v < Rows(dims, norm)
      ensures Boundary(occ, norm, slice, u, v) <==> Covered(rects, u, v)
    {
      SliceMaskAt(occ, dims, norm, slice, u, v);
    }
    SweepSlice(occ, dims, fs, norm, slice, rects);
    fs' := fs + SliceFaces(norm, slice, rects);
    QuadsOfAppend(fs, SliceFaces(norm, slice, rects));
    out := quads + QuadsOf(SliceFaces(norm, slice, rects));
    assert fs'[..|fs|] == fs;
    assert out[..|quads|] == quads;
  }

  /**
   * One sweep of the remesher: a mask of the tangent-by-bitangent plane, then
   * every slice from 0 to the cap in turn.
   */
  method SweepAxis(dims: Dims, occ: Oracle, norm: Axis, quads: seq<Quad>, ghost fs: seq<Face>)
    returns (out: seq<Quad>, ghost fs': seq<Face>)
    requires quads == QuadsOf(fs) && SweepInv(occ, dims, fs, norm, 0)
    ensures out == QuadsOf(fs') && SweepInv(occ, dims, fs', norm, Extent(dims, norm) + 1)
  {
    var mask := new bool[PlaneSize(dims, norm)];
    out, fs' := quads, fs;
    var slice: nat := 0;
    while slice <= Extent(dims, norm)
      invariant slice <= Extent(dims, norm) + 1
      invariant out == QuadsOf(fs') && SweepInv(occ, dims, fs', norm, slice)
    {
      out, fs' := ProcessSlice(mask, dims, occ, norm, slice, out, fs');
      slice := slice + 1;
    }
  }

  /**
   * The remesher: sweeps the normal axis over x, y and z. The quads read back
   * as faces that lie in the swept slices, cover exactly the boundary cells of
   * each slice, do not overlap, and add up to the number of boundary cells.
   */
  method GreedyRemesher(dims: Dims, occ: Oracle) returns (quads: seq<Quad>)
    ensures quads == QuadsOf(Faces(quads))
    ensures forall i :: 0 <= i < |quads| ==> FaceInVolume(dims, Faces(quads)[i])
    ensures forall n: Axis, s: int, u: int, v: int ::
              0 <= s <= Extent(dims, n) && 0 <= u < Columns(dims, n) && 0 <= v < Rows(dims, n)
              ==> (Boundary(occ, n, s, u, v) <==> FacesCover(Faces(quads), n, s, u, v))
    ensures FacesDisjoint(Faces(quads))
    ensures TotalArea(Faces(quads)) == VolumeCount(occ, dims)
    ensures |quads| <= VolumeCount(occ, dims)
    ensures (forall p :: !occ(p)) ==> quads == []
  {
    quads := [];
    ghost var fs: seq<Face> := [];
    SweepStart(occ, dims);
    var norm: nat := 0;
    while norm < 3
      invariant norm <= 3
      invariant quads == QuadsOf(fs) && SweepInv(occ, dims, fs, norm, 0)
    {
      quads, fs := SweepAxis(dims, occ, norm, quads, fs);
      SweepNextAxis(occ, dims, fs, norm);
      norm := norm + 1;
    }
    FacesOfQuads(fs);
    TotalAreaAtLeastCount(dims, fs);
    if forall p :: !occ(p) {
      EmptyOracleNoBoundary(occ, dims);
    }
  }
}
