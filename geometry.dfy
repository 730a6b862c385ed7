/**
 * Integer lattice geometry used by the remesher: 3-component vectors, the
 * (normal, tangent, bitangent) axis triple of a sweep, plane rectangles and
 * the quads emitted for them.
 */
module Geometry {

  /** A selector into a 3-component vector: 0 = x, 1 = y, 2 = z. */
  type Axis = n: nat | n < 3

  /** An integer triple (the model of both `glm::ivec3` and `glm::uvec3`). */
  datatype Vec3 = Vec3(x: int, y: int, z: int) {

    /** Component `a` of the vector (`v[a]`). */
    function At(a: Axis): int {
      if a == 0 then x else if a == 1 then y else z
    }

    /** The vector with component `a` replaced by `val` (`v[a] = val`). */
    function With(a: Axis, val: int): Vec3 {
      if a == 0 then Vec3(val, y, z) else if a == 1 then Vec3(x, val, z) else Vec3(x, y, val)
    }

    function Add(o: Vec3): Vec3 {
      Vec3(x + o.x, y + o.y, z + o.z)
    }

    function Sub(o: Vec3): Vec3 {
      Vec3(x - o.x, y - o.y, z - o.z)
    }
  }

  const Zero := Vec3(0, 0, 0)

  /** Setting a component changes that component only. */
  lemma WithAt(p: Vec3, a: Axis, val: int)
    ensures p.With(a, val).At(a) == val
    ensures forall b: Axis :: b != a ==> p.With(a, val).At(b) == p.At(b)
  {
  }

  /** Addition and subtraction are component-wise. */
  lemma AddSubAt(p: Vec3, o: Vec3)
    ensures forall a: Axis :: p.Add(o).At(a) == p.At(a) + o.At(a)
    ensures forall a: Axis :: p.Sub(o).At(a) == p.At(a) - o.At(a)
  {
  }

  /** Volume dimensions (`glm::uvec3`): three sizes, none negative. */
  type Dims = d: Vec3 | d.x >= 0 && d.y >= 0 && d.z >= 0 witness Vec3(0, 0, 0)

  /** The size of the volume along axis `a`. */
  function Extent(dims: Dims, a: Axis): (n: nat) {
    dims.At(a)
  }

  /** The point lies inside the volume `[0, dims)` on every axis. */
  predicate InVolume(dims: Dims, p: Vec3) {
    0 <= p.x < dims.x && 0 <= p.y < dims.y && 0 <= p.z < dims.z
  }

  /** The unit vector along axis `a` (the `normalVector` of a sweep). */
  function Unit(a: Axis): Vec3 {
    Zero.With(a, 1)
  }

  /** The tangent axis of sweep `norm`: the 'right' vector. */
  function Tangent(norm: Axis): (t: Axis)
    ensures t != norm
  {
    (norm + 1) % 3
  }

  /** The bitangent axis of sweep `norm`: the 'down' vector. */
  function Bitangent(norm: Axis): (b: Axis)
    ensures b != norm && b != Tangent(norm)
  {
    (norm + 2) % 3
  }

  /** The three axes of a sweep are a permutation of {x, y, z}. */
  lemma AxisTriplePermutes(norm: Axis)
    ensures {norm, Tangent(norm), Bitangent(norm)} == {0, 1, 2}
  {
  }

  /**
   * The lattice point at `slice` along the normal axis, `u` along the tangent
   * axis and `v` along the bitangent axis (the voxel cursor of a slice).
   */
  function Place(norm: Axis, slice: int, u: int, v: int): Vec3 {
    Zero.With(norm, slice).With(Tangent(norm), u).With(Bitangent(norm), v)
  }

  /** The cursor has the slice on the normal axis and (u, v) on the tangent and bitangent axes. */
  lemma PlaceAt(norm: Axis, slice: int, u: int, v: int)
    ensures Place(norm, slice, u, v).At(norm) == slice
    ensures Place(norm, slice, u, v).At(Tangent(norm)) == u
    ensures Place(norm, slice, u, v).At(Bitangent(norm)) == v
  {
    var p0 := Zero.With(norm, slice);
    var p1 := p0.With(Tangent(norm), u);
    WithAt(Zero, norm, slice);
    WithAt(p0, Tangent(norm), u);
    WithAt(p1, Bitangent(norm), v);
  }

  /** A cursor moved one step back along the normal axis is the cursor of the previous slice. */
  lemma PlaceStepBack(norm: Axis, slice: int, u: int, v: int)
    ensures Place(norm, slice, u, v).Sub(Unit(norm)) == Place(norm, slice - 1, u, v)
  {
    var p, q := Place(norm, slice, u, v).Sub(Unit(norm)), Place(norm, slice - 1, u, v);
    AxisTriplePermutes(norm);
    PlaceAt(norm, slice, u, v);
    PlaceAt(norm, slice - 1, u, v);
    AddSubAt(Place(norm, slice, u, v), Unit(norm));
    WithAt(Zero, norm, 1);
    assert p.At(0) == q.At(0) && p.At(1) == q.At(1) && p.At(2) == q.At(2);
  }

  /** A rectangle of the slice plane: `w` cells from column `x`, `h` cells from row `y`. */
  datatype Rect = Rect(x: int, y: int, w: int, h: int) {

    predicate Contains(u: int, v: int) {
      x <= u < x + w && y <= v < y + h
    }

    /** The two rectangles have a cell in common. */
    predicate Overlaps(o: Rect) {
      x < o.x + o.w && o.x < x + w && y < o.y + o.h && o.y < y + h
    }

    function Area(): int {
      w * h
    }
  }

  /** A common cell of two overlapping rectangles: the two rectangles really share it. */
  lemma OverlapWitness(r: Rect, o: Rect)
    requires r.w >= 1 && r.h >= 1 && o.w >= 1 && o.h >= 1
    requires r.Overlaps(o)
    ensures var u, v := if r.x < o.x then o.x else r.x, if r.y < o.y then o.y else r.y;
            r.Contains(u, v) && o.Contains(u, v)
  {
  }

  /** One emitted face: four lattice corners `b, b+du, b+du+dv, b+dv` (`quad_t`). */
  datatype Quad = Quad(a: Vec3, b: Vec3, c: Vec3, d: Vec3)

  /** What a quad stands for: a rectangle of slice `slice` of the sweep along `norm`. */
  datatype Face = Face(norm: Axis, slice: int, rect: Rect)

  /**
   * The corner construction of the remesher for a rectangle of one slice: base
   * `b` at (slice, x, y), `du = w * e_tan`, `dv = h * e_biTan`, corners
   * `b, b + du, b + du + dv, b + dv`.
   */
  function QuadOf(f: Face): Quad {
    var n, t, bt := f.norm, Tangent(f.norm), Bitangent(f.norm);
    var base := Zero.With(n, f.slice).With(t, f.rect.x).With(bt, f.rect.y);
    var du := Zero.With(t, f.rect.w);
    var dv := Zero.With(bt, f.rect.h);
    Quad(base, base.Add(du), base.Add(du).Add(dv), base.Add(dv))
  }

  /** The four corners of a face's quad are the cursors of the rectangle's four corners, in order. */
  lemma QuadCorners(f: Face)
    ensures QuadOf(f).a == Place(f.norm, f.slice, f.rect.x, f.rect.y)
    ensures QuadOf(f).b == Place(f.norm, f.slice, f.rect.x + f.rect.w, f.rect.y)
    ensures QuadOf(f).c == Place(f.norm, f.slice, f.rect.x + f.rect.w, f.rect.y + f.rect.h)
    ensures QuadOf(f).d == Place(f.norm, f.slice, f.rect.x, f.rect.y + f.rect.h)
  {
    var n, t, bt := f.norm, Tangent(f.norm), Bitangent(f.norm);
    var base := Zero.With(n, f.slice).With(t, f.rect.x).With(bt, f.rect.y);
    var du := Zero.With(t, f.rect.w);
    var dv := Zero.With(bt, f.rect.h);
    AxisTriplePermutes(n);
    WithAt(Zero, t, f.rect.w);
    WithAt(Zero, bt, f.rect.h);
    PlaceAt(n, f.slice, f.rect.x, f.rect.y);
    PlaceAt(n, f.slice, f.rect.x + f.rect.w, f.rect.y);
    PlaceAt(n, f.slice, f.rect.x + f.rect.w, f.rect.y + f.rect.h);
    PlaceAt(n, f.slice, f.rect.x, f.rect.y + f.rect.h);
    AddSubAt(base, du);
    AddSubAt(base.Add(du), dv);
    AddSubAt(base, dv);
    SamePoint(base.Add(du), Place(n, f.slice, f.rect.x + f.rect.w, f.rect.y));
    SamePoint(base.Add(du).Add(dv), Place(n, f.slice, f.rect.x + f.rect.w, f.rect.y + f.rect.h));
    SamePoint(base.Add(dv), Place(n, f.slice, f.rect.x, f.rect.y + f.rect.h));
  }

  /** Vectors agreeing on every component are equal. */
  lemma SamePoint(p: Vec3, q: Vec3)
    requires forall a: Axis :: p.At(a) == q.At(a)
    ensures p == q
  {
    assert p.At(0) == q.At(0) && p.At(1) == q.At(1) && p.At(2) == q.At(2);
  }

  /**
   * Reads the face back from a quad: the normal axis is the one along which the
   * two opposite corners `a` and `c` agree.
   */
  function FaceOf(q: Quad): Face {
    var n: Axis := if q.a.x == q.c.x then 0 else if q.a.y == q.c.y then 1 else 2;
    var t, bt := Tangent(n), Bitangent(n);
    Face(n, q.a.At(n), Rect(q.a.At(t), q.a.At(bt), q.c.At(t) - q.a.At(t), q.c.At(bt) - q.a.At(bt)))
  }

  /** The corner construction loses nothing: a non-empty face is recovered from its quad. */
  lemma FaceOfQuadOf(f: Face)
    requires f.rect.w >= 1 && f.rect.h >= 1
    ensures FaceOf(QuadOf(f)) == f
  {
    var q := QuadOf(f);
    AxisTriplePermutes(f.norm);
    QuadCorners(f);
    PlaceAt(f.norm, f.slice, f.rect.x, f.rect.y);
    PlaceAt(f.norm, f.slice, f.rect.x + f.rect.w, f.rect.y + f.rect.h);
    var p0, p2 := q.a, q.c;
    assert p2.At(f.norm) == p0.At(f.norm);
    assert p2.At(Tangent(f.norm)) == p0.At(Tangent(f.norm)) + f.rect.w;
    assert p2.At(Bitangent(f.norm)) == p0.At(Bitangent(f.norm)) + f.rect.h;
  }
}
