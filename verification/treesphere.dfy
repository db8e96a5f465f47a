/** The sphere record stored in every sphere-tree node (lib/treesphere.h),
    together with the geometric overlap test the collision query applies to
    two such records (lib/object_w_tree.h, checkColRecursive).

    Coordinates are modelled as `real` rather than IEEE doubles. */
module TreeSpheres {

  /** A bounding sphere: the centre (x, y, z) and the radius r.  The fields
      are declared in the order of the original record (r first); the record
      enforces no invariant, so a negative radius is representable. */
  datatype TreeSphere = TreeSphere(r: real, x: real, y: real, z: real)

  /** The default constructor: centre at the origin, radius zero. */
  function DefaultSphere(): (s: TreeSphere)
    ensures s.x == 0.0 && s.y == 0.0 && s.z == 0.0 && s.r == 0.0
  {
    TreeSphere(0.0, 0.0, 0.0, 0.0)
  }

  /** The copy constructor: all four fields are taken from `other`. */
  function CopySphere(other: TreeSphere): (s: TreeSphere)
    ensures s.r == other.r && s.x == other.x && s.y == other.y && s.z == other.z
  {
    TreeSphere(other.r, other.x, other.y, other.z)
  }

  /** The four-argument constructor: the arguments are given as centre
      first and radius last, although the record stores the radius first. */
  function MakeSphere(x: real, y: real, z: real, r: real): (s: TreeSphere)
    ensures s.x == x && s.y == y && s.z == z && s.r == r
  {
    TreeSphere(r, x, y, z)
  }

  /** The sphere moved by (dx, dy, dz): the centre shifts, the radius stays. */
  function Shift(s: TreeSphere, dx: real, dy: real, dz: real): (t: TreeSphere)
    ensures t.r == s.r
    ensures t.x - s.x == dx && t.y - s.y == dy && t.z - s.z == dz
  {
    s.(x := s.x + dx, y := s.y + dy, z := s.z + dz)
  }

  /** Squared Euclidean distance between the two centres. */
  function DistSq(s1: TreeSphere, s2: TreeSphere): real
  {
    (s1.x - s2.x) * (s1.x - s2.x) + (s1.y - s2.y) * (s1.y - s2.y) + (s1.z - s2.z) * (s1.z - s2.z)
  }

  /** The overlap test `dist <= r1 + r2` of the collision query, where
      `dist` is the square root of DistSq.  Over the reals it is equivalent
      to the squared comparison below when the radius sum is non-negative,
      and it is false otherwise (a distance is never negative); see
      OverlapsIsDistanceTest. */
  predicate Overlaps(s1: TreeSphere, s2: TreeSphere)
  {
    s1.r + s2.r >= 0.0 && DistSq(s1, s2) <= (s1.r + s2.r) * (s1.r + s2.r)
  }

  lemma SquareStrictlyMonotone(a: real, b: real)
    requires 0.0 <= b < a
    ensures b * b < a * a
  {
    var bb, ba, aa := b * b, b * a, a * a;
    assert bb <= ba;
    assert ba < aa by { assert (a - b) * a > 0.0; }
  }

  /** On non-negative reals, comparing two values and comparing their
      squares agree. */
  lemma SquareMonotone(a: real, b: real)
    requires 0.0 <= a && 0.0 <= b
    ensures a <= b <==> a * a <= b * b
  {
    if a <= b {
      assert a * a <= a * b <= b * b;
    } else {
      SquareStrictlyMonotone(a, b);
    }
  }

  /** For any non-negative `dist` whose square is the squared distance
      between the centres (the value getMagnitude computes), the source's
      test `dist <= r1 + r2` and Overlaps agree. */
  lemma OverlapsIsDistanceTest(s1: TreeSphere, s2: TreeSphere, dist: real)
    requires dist >= 0.0 && dist * dist == DistSq(s1, s2)
    ensures dist <= s1.r + s2.r <==> Overlaps(s1, s2)
  {
    var sum := s1.r + s2.r;
    if sum >= 0.0 {
      SquareMonotone(dist, sum);
    }
  }

  /** Overlap does not depend on the order of the two spheres. */
  lemma OverlapsSymmetric(s1: TreeSphere, s2: TreeSphere)
    ensures Overlaps(s1, s2) <==> Overlaps(s2, s1)
  {
    assert DistSq(s1, s2) == DistSq(s2, s1);
  }

  /** Two spheres with the same centre overlap whenever the sum of their
      radii is non-negative; in particular every sphere of non-negative
      radius overlaps itself. */
  lemma CoincidentCentresOverlap(s1: TreeSphere, s2: TreeSphere)
    requires s1.x == s2.x && s1.y == s2.y && s1.z == s2.z
    ensures Overlaps(s1, s2) <==> s1.r + s2.r >= 0.0
  {
  }

  /** Moving both spheres by the same delta does not change whether they
      overlap. */
  lemma OverlapsTranslationInvariant(s1: TreeSphere, s2: TreeSphere, dx: real, dy: real, dz: real)
    ensures Overlaps(Shift(s1, dx, dy, dz), Shift(s2, dx, dy, dz)) <==> Overlaps(s1, s2)
  {
    assert DistSq(Shift(s1, dx, dy, dz), Shift(s2, dx, dy, dz)) == DistSq(s1, s2);
  }

  /** Sphere c lies inside sphere p: the squared-distance form of
      |centre(c) - centre(p)| + c.r <= p.r. */
  predicate Contains(p: TreeSphere, c: TreeSphere)
  {
    c.r <= p.r && DistSq(c, p) <= (p.r - c.r) * (p.r - c.r)
  }

  /** Cauchy-Schwarz in three dimensions, by Lagrange's identity: the dot
      product of u and w is at most a * b when |u| <= a and |w| <= b. */
  lemma DotBound(ux: real, uy: real, uz: real, wx: real, wy: real, wz: real, a: real, b: real)
    requires a >= 0.0 && b >= 0.0
    requires ux * ux + uy * uy + uz * uz <= a * a
    requires wx * wx + wy * wy + wz * wz <= b * b
    ensures ux * wx + uy * wy + uz * wz <= a * b
  {
    var uu, ww, dot := ux * ux + uy * uy + uz * uz, wx * wx + wy * wy + wz * wz, ux * wx + uy * wy + uz * wz;
    var p, q, r := ux * wy - uy * wx, ux * wz - uz * wx, uy * wz - uz * wy;
    assert uu * ww - dot * dot == p * p + q * q + r * r;
    assert p * p >= 0.0 && q * q >= 0.0 && r * r >= 0.0;
    assert uu >= 0.0 && ww >= 0.0;
    assert uu * ww <= (a * a) * ww;
    assert (a * a) * ww <= (a * a) * (b * b);
    assert (a * a) * (b * b) == (a * b) * (a * b);
    if dot > a * b {
      SquareStrictlyMonotone(dot, a * b);
      assert false;
    }
  }

  /** The step that makes pruning safe: whatever overlaps a sphere c that
      lies inside p also overlaps p (the triangle inequality). */
  lemma OverlapThroughContainment(s: TreeSphere, c: TreeSphere, p: TreeSphere)
    requires Overlaps(s, c) && Contains(p, c)
    ensures Overlaps(s, p)
  {
    var a, b := s.r + c.r, p.r - c.r;
    var ux, uy, uz := s.x - c.x, s.y - c.y, s.z - c.z;
    var wx, wy, wz := c.x - p.x, c.y - p.y, c.z - p.z;
    DotBound(ux, uy, uz, wx, wy, wz, a, b);
    var dot := ux * wx + uy * wy + uz * wz;
    assert DistSq(s, p) == DistSq(s, c) + 2.0 * dot + DistSq(c, p);
    assert (a + b) * (a + b) == a * a + 2.0 * (a * b) + b * b;
    assert s.r + p.r == a + b;
  }
}
