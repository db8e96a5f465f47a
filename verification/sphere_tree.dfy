/** The sphere-tree algorithms of lib/object_w_tree.h, stated on tree
    values: the dual-tree collision query, the translation of a tree, the
    cube tree built by the Cube constructor, and the enumeration of the
    spheres drawn by drawRecurse.  The heap-based methods of module Objects
    are proved against these functions. */
module SphereTree {
  import opened TreeSpheres
  import opened Octree

  /* ---------------------------------------------------------------- */
  /* Sequences of sequences                                             */
  /* ---------------------------------------------------------------- */

  function Concat<T>(ss: seq<seq<T>>): seq<T>
  {
    if ss == [] then [] else ss[0] + Concat(ss[1..])
  }

  lemma {:induction false} ConcatMember<T>(ss: seq<seq<T>>, x: T)
    ensures x in Concat(ss) <==> exists i :: 0 <= i < |ss| && x in ss[i]
  {
    if ss != [] {
      ConcatMember(ss[1..], x);
      if x in Concat(ss[1..]) {
        var i :| 0 <= i < |ss[1..]| && x in ss[1..][i];
        assert x in ss[i + 1];
      }
      if exists i :: 0 <= i < |ss| && x in ss[i] {
        var i :| 0 <= i < |ss| && x in ss[i];
        if i > 0 {
          assert x in ss[1..][i - 1];
        }
      }
    }
  }

  lemma {:induction false} ConcatUniformLength<T>(ss: seq<seq<T>>, n: nat)
    requires forall i :: 0 <= i < |ss| ==> |ss[i]| == n
    ensures |Concat(ss)| == |ss| * n
  {
    if ss != [] {
      ConcatUniformLength(ss[1..], n);
    }
  }

  /** Concatenating one more sequence at the end appends it. */
  lemma {:induction false} ConcatAppend<T>(ss: seq<seq<T>>, s: seq<T>)
    ensures Concat(ss + [s]) == Concat(ss) + s
  {
    if ss == [] {
      assert [s][1..] == [];
    } else {
      assert (ss + [s])[1..] == ss[1..] + [s];
      ConcatAppend(ss[1..], s);
    }
  }

  function Sum(xs: seq<nat>): nat
  {
    if xs == [] then 0 else xs[0] + Sum(xs[1..])
  }

  lemma {:induction false} SumUniform(xs: seq<nat>, n: nat)
    requires forall i :: 0 <= i < |xs| ==> xs[i] == n
    ensures Sum(xs) == |xs| * n
  {
    if xs != [] {
      SumUniform(xs[1..], n);
    }
  }

  /* ---------------------------------------------------------------- */
  /* Leaves                                                             */
  /* ---------------------------------------------------------------- */

  /** The leaves of a tree, left to right. */
  function Leaves(t: Tree): seq<Tree>
  {
    match t
    case Leaf(_, _) => [t]
    case Node(_, _, kids) => Concat(seq(|kids|, i requires 0 <= i < |kids| => Leaves(kids[i])))
  }

  /** The leaves of an interior node are exactly the leaves of its
      children. */
  lemma LeavesOfNode(t: Tree, l: Tree)
    requires t.Node?
    ensures l in Leaves(t) <==> exists i :: 0 <= i < |t.kids| && l in Leaves(t.kids[i])
  {
    var ss := seq(|t.kids|, i requires 0 <= i < |t.kids| => Leaves(t.kids[i]));
    ConcatMember(ss, l);
    if exists i :: 0 <= i < |t.kids| && l in Leaves(t.kids[i]) {
      var i :| 0 <= i < |t.kids| && l in Leaves(t.kids[i]);
      assert l in ss[i];
    }
  }

  /** Every element of Leaves is a leaf. */
  lemma {:induction false} LeavesAreLeaves(t: Tree, l: Tree)
    requires l in Leaves(t)
    ensures l.Leaf?
    decreases t
  {
    if t.Node? {
      LeavesOfNode(t, l);
      var i :| 0 <= i < |t.kids| && l in Leaves(t.kids[i]);
      LeavesAreLeaves(t.kids[i], l);
    }
  }

  /* ---------------------------------------------------------------- */
  /* The collision query (checkColRecursive)                            */
  /* ---------------------------------------------------------------- */

  /** The dual-tree query: false unless the two root spheres overlap and
      the FIRST tree's root is occupied (the second tree's flags are never
      consulted); true when both roots are leaves; otherwise the disjunction
      over the children of whichever side has them (all 64 pairs when both
      do).  Each call descends into a child of t1 or of t2 and never climbs
      back, so the recursion is bounded by the sum of the two heights. */
  predicate CheckCol(t1: Tree, t2: Tree)
    ensures CheckCol(t1, t2) ==> Overlaps(t1.value, t2.value) && t1.isThere
    ensures t1.Leaf? && t2.Leaf? ==> (CheckCol(t1, t2) <==> Overlaps(t1.value, t2.value) && t1.isThere)
    decreases t1, t2
  {
    if Overlaps(t1.value, t2.value) && t1.isThere then
      if t1.Leaf? && t2.Leaf? then true
      else if t1.Leaf? then exists j :: 0 <= j < |t2.kids| && CheckCol(t1, t2.kids[j])
      else if t2.Leaf? then exists i :: 0 <= i < |t1.kids| && CheckCol(t1.kids[i], t2)
      else exists i, j :: 0 <= i < |t1.kids| && 0 <= j < |t2.kids| && CheckCol(t1.kids[i], t2.kids[j])
    else false
  }

  /** The descent rule, for two well-formed trees whose roots pass the
      pruning test: with only t2 interior, the verdict is the disjunction
      over t2's eight children; with only t1 interior, over t1's eight
      children; with both interior, over all 64 pairs of children. */
  lemma CheckColDescent(t1: Tree, t2: Tree)
    requires WellFormed(t1) && WellFormed(t2)
    requires Overlaps(t1.value, t2.value) && t1.isThere
    ensures t1.Leaf? && t2.Leaf? ==> CheckCol(t1, t2)
    ensures t1.Leaf? && t2.Node? ==>
              (CheckCol(t1, t2) <==> exists j :: 0 <= j < Arity && CheckCol(t1, t2.kids[j]))
    ensures t1.Node? && t2.Leaf? ==>
              (CheckCol(t1, t2) <==> exists i :: 0 <= i < Arity && CheckCol(t1.kids[i], t2))
    ensures t1.Node? && t2.Node? ==>
              (CheckCol(t1, t2) <==> exists i, j :: 0 <= i < Arity && 0 <= j < Arity && CheckCol(t1.kids[i], t2.kids[j]))
  {
  }

  /** Slice i of the descent: the pairs the i-th iteration of the query's
      loop examines. */
  predicate SliceHit(t1: Tree, t2: Tree, i: nat)
    requires WellFormed(t1) && WellFormed(t2) && i < Arity && (t1.Node? || t2.Node?)
  {
    if t1.Leaf? then CheckCol(t1, t2.kids[i])
    else if t2.Leaf? then CheckCol(t1.kids[i], t2)
    else exists j :: 0 <= j < Arity && CheckCol(t1.kids[i], t2.kids[j])
  }

  /** Once the roots pass the pruning test and one of them is interior, the
      verdict is the disjunction of the eight slices. */
  lemma CheckColBySlices(t1: Tree, t2: Tree)
    requires WellFormed(t1) && WellFormed(t2) && (t1.Node? || t2.Node?)
    requires Overlaps(t1.value, t2.value) && t1.isThere
    ensures CheckCol(t1, t2) <==> exists i :: 0 <= i < Arity && SliceHit(t1, t2, i)
  {
    CheckColDescent(t1, t2);
    if t1.Node? && t2.Node? {
      if CheckCol(t1, t2) {
        var i, j :| 0 <= i < Arity && 0 <= j < Arity && CheckCol(t1.kids[i], t2.kids[j]);
        assert SliceHit(t1, t2, i);
      }
      if i :| 0 <= i < Arity && SliceHit(t1, t2, i) {
        var j :| 0 <= j < Arity && CheckCol(t1.kids[i], t2.kids[j]);
        assert CheckCol(t1, t2);
      }
    } else if t1.Leaf? {
      if CheckCol(t1, t2) {
        var j :| 0 <= j < Arity && CheckCol(t1, t2.kids[j]);
        assert SliceHit(t1, t2, j);
      }
      if i :| 0 <= i < Arity && SliceHit(t1, t2, i) {
        assert CheckCol(t1, t2.kids[i]);
      }
    } else {
      if CheckCol(t1, t2) {
        var i :| 0 <= i < Arity && CheckCol(t1.kids[i], t2);
        assert SliceHit(t1, t2, i);
      }
      if i :| 0 <= i < Arity && SliceHit(t1, t2, i) {
        assert CheckCol(t1.kids[i], t2);
      }
    }
  }

  /** Soundness: a positive verdict is always backed by an occupied leaf of
      the first tree and a leaf of the second tree whose spheres overlap. */
  lemma {:induction false} CheckColSound(t1: Tree, t2: Tree)
    requires CheckCol(t1, t2)
    ensures exists l1, l2 :: l1 in Leaves(t1) && l2 in Leaves(t2) && l1.isThere && Overlaps(l1.value, l2.value)
    decreases t1, t2
  {
    if t1.Leaf? && t2.Leaf? {
      assert t1 in Leaves(t1) && t2 in Leaves(t2);
    } else if t1.Leaf? {
      var j :| 0 <= j < |t2.kids| && CheckCol(t1, t2.kids[j]);
      CheckColSound(t1, t2.kids[j]);
      var l1, l2 :| l1 in Leaves(t1) && l2 in Leaves(t2.kids[j]) && l1.isThere && Overlaps(l1.value, l2.value);
      LeavesOfNode(t2, l2);
    } else if t2.Leaf? {
      var i :| 0 <= i < |t1.kids| && CheckCol(t1.kids[i], t2);
      CheckColSound(t1.kids[i], t2);
      var l1, l2 :| l1 in Leaves(t1.kids[i]) && l2 in Leaves(t2) && l1.isThere && Overlaps(l1.value, l2.value);
      LeavesOfNode(t1, l1);
    } else {
      var i, j :| 0 <= i < |t1.kids| && 0 <= j < |t2.kids| && CheckCol(t1.kids[i], t2.kids[j]);
      CheckColSound(t1.kids[i], t2.kids[j]);
      var l1, l2 :| l1 in Leaves(t1.kids[i]) && l2 in Leaves(t2.kids[j]) && l1.isThere && Overlaps(l1.value, l2.value);
      LeavesOfNode(t1, l1);
      LeavesOfNode(t2, l2);
    }
  }

  /** The tree `t` with every occupancy flag set to `b`. */
  function WithFlags(t: Tree, b: bool): (r: Tree)
    ensures r.value == t.value && r.isThere == b && r.Leaf? == t.Leaf?
    ensures r.Node? ==> |r.kids| == |t.kids|
  {
    match t
    case Leaf(s, _) => Leaf(s, b)
    case Node(s, _, kids) => Node(s, b, seq(|kids|, i requires 0 <= i < |kids| => WithFlags(kids[i], b)))
  }

  /** The query never looks at the second tree's occupancy flags: any
      assignment of them gives the same verdict. */
  lemma {:induction false} CheckColIgnoresSecondFlags(t1: Tree, t2: Tree, b: bool)
    ensures CheckCol(t1, WithFlags(t2, b)) == CheckCol(t1, t2)
    decreases t1, t2
  {
    var w := WithFlags(t2, b);
    if Overlaps(t1.value, t2.value) && t1.isThere && !(t1.Leaf? && t2.Leaf?) {
      if t1.Leaf? {
        forall j | 0 <= j < |t2.kids| ensures CheckCol(t1, w.kids[j]) == CheckCol(t1, t2.kids[j]) {
          CheckColIgnoresSecondFlags(t1, t2.kids[j], b);
        }
      } else if t2.Leaf? {
        forall i | 0 <= i < |t1.kids| ensures CheckCol(t1.kids[i], w) == CheckCol(t1.kids[i], t2) {
          CheckColIgnoresSecondFlags(t1.kids[i], t2, b);
        }
      } else {
        forall i, j | 0 <= i < |t1.kids| && 0 <= j < |t2.kids|
          ensures CheckCol(t1.kids[i], w.kids[j]) == CheckCol(t1.kids[i], t2.kids[j])
        {
          CheckColIgnoresSecondFlags(t1.kids[i], t2.kids[j], b);
        }
      }
    }
  }

  /* ---------------------------------------------------------------- */
  /* Translation (updateSphereNode)                                     */
  /* ---------------------------------------------------------------- */

  /** The tree with every centre moved by (dx, dy, dz). */
  function Translate(t: Tree, dx: real, dy: real, dz: real): (r: Tree)
    ensures r.value == Shift(t.value, dx, dy, dz) && r.isThere == t.isThere && r.Leaf? == t.Leaf?
    ensures r.Node? ==> |r.kids| == |t.kids|
  {
    match t
    case Leaf(s, occ) => Leaf(Shift(s, dx, dy, dz), occ)
    case Node(s, occ, kids) =>
      Node(Shift(s, dx, dy, dz), occ, seq(|kids|, i requires 0 <= i < |kids| => Translate(kids[i], dx, dy, dz)))
  }

  /** The tree with every centre replaced by the origin: what remains is
      the shape, the radii and the flags. */
  function EraseCentres(t: Tree): (r: Tree)
  {
    match t
    case Leaf(s, occ) => Leaf(s.(x := 0.0, y := 0.0, z := 0.0), occ)
    case Node(s, occ, kids) =>
      Node(s.(x := 0.0, y := 0.0, z := 0.0), occ, seq(|kids|, i requires 0 <= i < |kids| => EraseCentres(kids[i])))
  }

  /** Translation changes centres only: shape, radii and occupancy flags are
      those of the original tree. */
  lemma {:induction false} TranslateKeepsShape(t: Tree, dx: real, dy: real, dz: real)
    ensures EraseCentres(Translate(t, dx, dy, dz)) == EraseCentres(t)
    ensures WellFormed(t) ==> WellFormed(Translate(t, dx, dy, dz))
  {
    if t.Node? {
      var r := Translate(t, dx, dy, dz);
      forall i | 0 <= i < |t.kids|
        ensures EraseCentres(r.kids[i]) == EraseCentres(t.kids[i])
        ensures WellFormed(t.kids[i]) ==> WellFormed(r.kids[i])
      {
        TranslateKeepsShape(t.kids[i], dx, dy, dz);
      }
      assert EraseCentres(r).kids == EraseCentres(t).kids;
    }
  }

  /** Two translations in a row are one translation by the summed delta. */
  lemma {:induction false} TranslateCompose(t: Tree, dx: real, dy: real, dz: real, ex: real, ey: real, ez: real)
    ensures Translate(Translate(t, dx, dy, dz), ex, ey, ez) == Translate(t, dx + ex, dy + ey, dz + ez)
  {
    if t.Node? {
      var a := Translate(Translate(t, dx, dy, dz), ex, ey, ez);
      var b := Translate(t, dx + ex, dy + ey, dz + ez);
      forall i | 0 <= i < |t.kids| ensures a.kids[i] == b.kids[i] {
        TranslateCompose(t.kids[i], dx, dy, dz, ex, ey, ez);
      }
      assert a.kids == b.kids;
    }
  }

  /** Translating by the zero delta changes nothing. */
  lemma {:induction false} TranslateZero(t: Tree)
    ensures Translate(t, 0.0, 0.0, 0.0) == t
  {
    if t.Node? {
      var a := Translate(t, 0.0, 0.0, 0.0);
      forall i | 0 <= i < |t.kids| ensures a.kids[i] == t.kids[i] {
        TranslateZero(t.kids[i]);
      }
      assert a.kids == t.kids;
    }
  }

  /** Translating by a delta and then by its negation restores every centre
      exactly (over the reals). */
  lemma TranslateRoundTrip(t: Tree, dx: real, dy: real, dz: real)
    ensures Translate(Translate(t, dx, dy, dz), -dx, -dy, -dz) == t
  {
    TranslateCompose(t, dx, dy, dz, -dx, -dy, -dz);
    TranslateZero(t);
  }

  /** Moving both objects by the same delta does not change the verdict of
      the collision query. */
  lemma {:induction false} CheckColTranslationInvariant(t1: Tree, t2: Tree, dx: real, dy: real, dz: real)
    ensures CheckCol(Translate(t1, dx, dy, dz), Translate(t2, dx, dy, dz)) == CheckCol(t1, t2)
    decreases t1, t2
  {
    var u1, u2 := Translate(t1, dx, dy, dz), Translate(t2, dx, dy, dz);
    OverlapsTranslationInvariant(t1.value, t2.value, dx, dy, dz);
    if Overlaps(t1.value, t2.value) && t1.isThere && !(t1.Leaf? && t2.Leaf?) {
      if t1.Leaf? {
        forall j | 0 <= j < |t2.kids| ensures CheckCol(u1, u2.kids[j]) == CheckCol(t1, t2.kids[j]) {
          CheckColTranslationInvariant(t1, t2.kids[j], dx, dy, dz);
        }
      } else if t2.Leaf? {
        forall i | 0 <= i < |t1.kids| ensures CheckCol(u1.kids[i], u2) == CheckCol(t1.kids[i], t2) {
          CheckColTranslationInvariant(t1.kids[i], t2, dx, dy, dz);
        }
      } else {
        forall i, j | 0 <= i < |t1.kids| && 0 <= j < |t2.kids|
          ensures CheckCol(u1.kids[i], u2.kids[j]) == CheckCol(t1.kids[i], t2.kids[j])
        {
          CheckColTranslationInvariant(t1.kids[i], t2.kids[j], dx, dy, dz);
        }
      }
    }
  }

  /* ---------------------------------------------------------------- */
  /* Occupied-leaf enumeration (drawRecurse)                            */
  /* ---------------------------------------------------------------- */

  /** The spheres drawRecurse hands to the renderer, in visiting order: an
      interior node is never drawn, whatever its flag; it only passes the
      walk on to its children in slot order; a leaf is drawn when it is
      occupied. */
  function OccupiedLeaves(t: Tree): seq<TreeSphere>
  {
    match t
    case Leaf(s, occ) => if occ then [s] else []
    case Node(_, _, kids) => Concat(seq(|kids|, i requires 0 <= i < |kids| => OccupiedLeaves(kids[i])))
  }

  /** A sphere is drawn exactly when it belongs to an occupied leaf. */
  lemma {:induction false} OccupiedLeavesExact(t: Tree, s: TreeSphere)
    ensures s in OccupiedLeaves(t) <==> exists l :: l in Leaves(t) && l.isThere && l.value == s
    decreases t
  {
    if t.Leaf? {
      assert Leaves(t) == [t];
    } else {
      var ss := seq(|t.kids|, i requires 0 <= i < |t.kids| => OccupiedLeaves(t.kids[i]));
      ConcatMember(ss, s);
      forall i | 0 <= i < |t.kids|
        ensures s in ss[i] <==> exists l :: l in Leaves(t.kids[i]) && l.isThere && l.value == s
      {
        OccupiedLeavesExact(t.kids[i], s);
      }
      if s in OccupiedLeaves(t) {
        var i :| 0 <= i < |ss| && s in ss[i];
        var l :| l in Leaves(t.kids[i]) && l.isThere && l.value == s;
        LeavesOfNode(t, l);
      }
      if exists l :: l in Leaves(t) && l.isThere && l.value == s {
        var l :| l in Leaves(t) && l.isThere && l.value == s;
        LeavesOfNode(t, l);
        var i :| 0 <= i < |t.kids| && l in Leaves(t.kids[i]);
        assert s in ss[i];
      }
    }
  }

  /** Interior nodes are never drawn: an interior node's own sphere is drawn
      only when it is also the sphere of some occupied leaf. */
  lemma InteriorNotDrawn(t: Tree, s: TreeSphere)
    requires s in OccupiedLeaves(t)
    ensures exists l :: l in Leaves(t) && l.Leaf? && l.isThere && l.value == s
  {
    OccupiedLeavesExact(t, s);
    var l :| l in Leaves(t) && l.isThere && l.value == s;
    LeavesAreLeaves(t, l);
  }

  /* ---------------------------------------------------------------- */
  /* Shape predicates and counts                                        */
  /* ---------------------------------------------------------------- */

  function Pow8(n: nat): nat
  {
    if n == 0 then 1 else 8 * Pow8(n - 1)
  }

  function Pow2(n: nat): nat
  {
    if n == 0 then 1 else 2 * Pow2(n - 1)
  }

  /** A complete 8-ary tree of height d: every leaf is at depth d. */
  predicate Complete(t: Tree, d: nat)
  {
    if d == 0 then t.Leaf?
    else t.Node? && |t.kids| == Arity && forall i :: 0 <= i < |t.kids| ==> Complete(t.kids[i], d - 1)
  }

  /** Every node, interior or leaf, is occupied. */
  predicate AllOccupied(t: Tree)
  {
    t.isThere && (t.Node? ==> forall i :: 0 <= i < |t.kids| ==> AllOccupied(t.kids[i]))
  }

  /** Number of interior nodes. */
  function InteriorCount(t: Tree): nat
  {
    match t
    case Leaf(_, _) => 0
    case Node(_, _, kids) => 1 + Sum(seq(|kids|, i requires 0 <= i < |kids| => InteriorCount(kids[i])))
  }

  /** A complete 8-ary tree of height d has 8^d leaves and (8^d - 1) / 7
      interior nodes. */
  lemma {:induction false} CompleteCounts(t: Tree, d: nat)
    requires Complete(t, d)
    ensures |Leaves(t)| == Pow8(d)
    ensures 7 * InteriorCount(t) + 1 == Pow8(d)
  {
    if d > 0 {
      var ls := seq(|t.kids|, i requires 0 <= i < |t.kids| => Leaves(t.kids[i]));
      var ns := seq(|t.kids|, i requires 0 <= i < |t.kids| => InteriorCount(t.kids[i]));
      forall i | 0 <= i < |t.kids|
        ensures |ls[i]| == Pow8(d - 1) && 7 * ns[i] + 1 == Pow8(d - 1)
      {
        CompleteCounts(t.kids[i], d - 1);
      }
      ConcatUniformLength(ls, Pow8(d - 1));
      var n := (Pow8(d - 1) - 1) / 7;
      assert forall i :: 0 <= i < |ns| ==> ns[i] == n;
      SumUniform(ns, n);
    }
  }

  lemma {:induction false} ConcatSameLengths<T, U>(ss: seq<seq<T>>, us: seq<seq<U>>)
    requires |ss| == |us| && forall i :: 0 <= i < |ss| ==> |ss[i]| == |us[i]|
    ensures |Concat(ss)| == |Concat(us)|
  {
    if ss != [] {
      ConcatSameLengths(ss[1..], us[1..]);
    }
  }

  /** When every node is occupied, every leaf is drawn. */
  lemma {:induction false} AllOccupiedAllDrawn(t: Tree)
    requires AllOccupied(t)
    ensures |OccupiedLeaves(t)| == |Leaves(t)|
  {
    if t.Node? {
      var os := seq(|t.kids|, i requires 0 <= i < |t.kids| => OccupiedLeaves(t.kids[i]));
      var ls := seq(|t.kids|, i requires 0 <= i < |t.kids| => Leaves(t.kids[i]));
      forall i | 0 <= i < |t.kids| ensures |os[i]| == |ls[i]| {
        AllOccupiedAllDrawn(t.kids[i]);
      }
      ConcatSameLengths(os, ls);
    }
  }

  /* ---------------------------------------------------------------- */
  /* Containment                                                        */
  /* ---------------------------------------------------------------- */

  /** Sphere c lies inside sphere p and touches it from inside: the
      squared-distance form of |centre(c) - centre(p)| + c.r == p.r. */
  predicate InternallyTangent(c: TreeSphere, p: TreeSphere)
  {
    c.r <= p.r && DistSq(c, p) == (p.r - c.r) * (p.r - c.r)
  }

  /** With the centre distance written out, InternallyTangent is the
      containment equation |centre(c) - centre(p)| + c.r == p.r. */
  lemma InternallyTangentDistance(c: TreeSphere, p: TreeSphere, dist: real)
    requires dist >= 0.0 && dist * dist == DistSq(c, p)
    ensures InternallyTangent(c, p) <==> dist + c.r == p.r
  {
    if c.r <= p.r {
      SquareMonotone(dist, p.r - c.r);
      SquareMonotone(p.r - c.r, dist);
    }
  }

  /** Every child has half its parent's radius and lies inside its parent,
      touching it from inside. */
  predicate Nested(t: Tree)
  {
    t.Node? ==>
      forall i :: 0 <= i < |t.kids| ==>
        t.kids[i].value.r * 2.0 == t.value.r && InternallyTangent(t.kids[i].value, t.value) && Nested(t.kids[i])
  }

  /* ---------------------------------------------------------------- */
  /* The cube tree (Cube constructor and buildTree)                     */
  /* ---------------------------------------------------------------- */

  /** The direction of child slot k along x, y and z (true for +): slots
      0..7 take the sign combinations (-,-,-), (+,-,-), (-,+,-), (+,+,-),
      (-,-,+), (+,-,+), (-,+,+), (+,+,+). */
  predicate UpX(k: nat) { k % 2 == 1 }
  predicate UpY(k: nat) { (k / 2) % 2 == 1 }
  predicate UpZ(k: nat) { (k / 4) % 2 == 1 }

  /** The coordinate c moved by d in the given direction. */
  function Step(c: real, up: bool, d: real): (s: real)
    ensures up ==> s - c == d
    ensures !up ==> c - s == d
  {
    if up then c + d else c - d
  }

  /** Either way the square of the move is the square of d. */
  lemma StepSquare(c: real, up: bool, d: real)
    ensures (Step(c, up, d) - c) * (Step(c, up, d) - c) == d * d
  {
    if !up {
      assert Step(c, up, d) - c == -d;
      assert (-d) * (-d) == d * d;
    }
  }

  /** The occupied cube node centred at (x, y, z) with half-side h and
      radius r, with `levels` levels of children below it. */
  function CubeNode(levels: nat, x: real, y: real, z: real, h: real, r: real): (t: Tree)
    ensures t.value == MakeSphere(x, y, z, r) && t.isThere
    ensures t.Leaf? <==> levels == 0
    decreases levels, 0
  {
    if levels == 0 then Leaf(MakeSphere(x, y, z, r), true)
    else Node(MakeSphere(x, y, z, r), true, CubeKids(levels - 1, x, y, z, h, r))
  }

  /** The eight children buildTree creates under a node centred at
      (x, y, z) with half-side h and radius r: each has half the half-side
      and half the radius and is offset by half the half-side along every
      axis, in the slot order of UpX, UpY and UpZ. */
  function CubeKids(levelsAfter: nat, x: real, y: real, z: real, h: real, r: real): (kids: seq<Tree>)
    ensures |kids| == Arity
    decreases levelsAfter, 1
  {
    var nh, nr := h / 2.0, r / 2.0;
    [CubeNode(levelsAfter, x - nh, y - nh, z - nh, nh, nr),
     CubeNode(levelsAfter, x + nh, y - nh, z - nh, nh, nr),
     CubeNode(levelsAfter, x - nh, y + nh, z - nh, nh, nr),
     CubeNode(levelsAfter, x + nh, y + nh, z - nh, nh, nr),
     CubeNode(levelsAfter, x - nh, y - nh, z + nh, nh, nr),
     CubeNode(levelsAfter, x + nh, y - nh, z + nh, nh, nr),
     CubeNode(levelsAfter, x - nh, y + nh, z + nh, nh, nr),
     CubeNode(levelsAfter, x + nh, y + nh, z + nh, nh, nr)]
  }

  /** Child slot k of CubeKids is offset by half the half-side in the
      directions UpX(k), UpY(k) and UpZ(k). */
  lemma CubeKidAt(levelsAfter: nat, x: real, y: real, z: real, h: real, r: real, k: nat)
    requires k < Arity
    ensures CubeKids(levelsAfter, x, y, z, h, r)[k] ==
            CubeNode(levelsAfter, Step(x, UpX(k), h / 2.0), Step(y, UpY(k), h / 2.0),
                     Step(z, UpZ(k), h / 2.0), h / 2.0, r / 2.0)
  {
    if k == 0 {
      assert !UpX(k) && !UpY(k) && !UpZ(k);
    } else if k == 1 {
      assert UpX(k) && !UpY(k) && !UpZ(k);
    } else if k == 2 {
      assert !UpX(k) && UpY(k) && !UpZ(k);
    } else if k == 3 {
      assert UpX(k) && UpY(k) && !UpZ(k);
    } else if k == 4 {
      assert !UpX(k) && !UpY(k) && UpZ(k);
    } else if k == 5 {
      assert UpX(k) && !UpY(k) && UpZ(k);
    } else if k == 6 {
      assert !UpX(k) && UpY(k) && UpZ(k);
    } else {
      assert UpX(k) && UpY(k) && UpZ(k);
    }
  }

  /** The spheres of the eight children CubeKids lists, slot by slot; all
      are occupied, and they are leaves exactly when no levels remain. */
  lemma CubeKidsSpheres(levelsAfter: nat, x: real, y: real, z: real, h: real, r: real)
    ensures var kids, nh, nr := CubeKids(levelsAfter, x, y, z, h, r), h / 2.0, r / 2.0;
            kids[0].value == MakeSphere(x - nh, y - nh, z - nh, nr) &&
            kids[1].value == MakeSphere(x + nh, y - nh, z - nh, nr) &&
            kids[2].value == MakeSphere(x - nh, y + nh, z - nh, nr) &&
            kids[3].value == MakeSphere(x + nh, y + nh, z - nh, nr) &&
            kids[4].value == MakeSphere(x - nh, y - nh, z + nh, nr) &&
            kids[5].value == MakeSphere(x + nh, y - nh, z + nh, nr) &&
            kids[6].value == MakeSphere(x - nh, y + nh, z + nh, nr) &&
            kids[7].value == MakeSphere(x + nh, y + nh, z + nh, nr) &&
            forall k :: 0 <= k < Arity ==> kids[k].isThere && (kids[k].Leaf? <==> levelsAfter == 0)
  {
  }

  /** A child of an interior cube node, when levels remain below it, is an
      occupied interior node whose children CubeKids builds from the
      child's own centre. */
  lemma CubeKidUnfold(levelsAfter: nat, x: real, y: real, z: real, h: real, r: real, k: nat)
    requires k < Arity
    ensures var c := CubeKids(levelsAfter + 1, x, y, z, h, r)[k];
            c == Node(c.value, true, CubeKids(levelsAfter, c.value.x, c.value.y, c.value.z, h / 2.0, r / 2.0))
  {
    CubeKidAt(levelsAfter + 1, x, y, z, h, r, k);
  }

  /** The sphere tree of a cube centred at (x, y, z) with half-side h at
      the requested depth; R is the radius of the cube's circumscribing
      sphere.  A depth of zero or less gives one occupied leaf. */
  function CubeTree(x: real, y: real, z: real, h: real, R: real, treeDepth: int): (t: Tree)
    ensures treeDepth <= 0 ==> t == Leaf(MakeSphere(x, y, z, R), true)
    ensures treeDepth >= 1 ==> t.Node? && t.value == MakeSphere(x, y, z, R) && t.isThere
  {
    if treeDepth >= 1 then CubeNode(treeDepth, x, y, z, h, R)
    else Leaf(MakeSphere(x, y, z, R), true)
  }

  /** The depth the cube tree actually has. */
  function EffectiveDepth(treeDepth: int): nat
  {
    if treeDepth >= 1 then treeDepth else 0
  }

  /** A cube node with `levels` levels below it is a well-formed, complete
      8-ary tree of that height in which every node is occupied. */
  lemma {:induction false} CubeNodeShape(levels: nat, x: real, y: real, z: real, h: real, r: real)
    ensures var t := CubeNode(levels, x, y, z, h, r);
            WellFormed(t) && Complete(t, levels) && AllOccupied(t)
  {
    if levels > 0 {
      var t := CubeNode(levels, x, y, z, h, r);
      forall k | 0 <= k < Arity
        ensures WellFormed(t.kids[k]) && Complete(t.kids[k], levels - 1) && AllOccupied(t.kids[k])
      {
        CubeKidAt(levels - 1, x, y, z, h, r, k);
        CubeNodeShape(levels - 1, Step(x, UpX(k), h / 2.0), Step(y, UpY(k), h / 2.0),
                      Step(z, UpZ(k), h / 2.0), h / 2.0, r / 2.0);
      }
    }
  }

  /** The cube tree has the requested shape: 8^d leaves, (8^d - 1) / 7
      interior nodes, every node occupied, every leaf at depth d, where d is
      the requested depth (zero for a depth of zero or less); every one of
      its 8^d leaves is drawn. */
  lemma CubeTreeShape(x: real, y: real, z: real, h: real, R: real, treeDepth: int)
    ensures var t := CubeTree(x, y, z, h, R, treeDepth);
            var d := EffectiveDepth(treeDepth);
            WellFormed(t) && Complete(t, d) && AllOccupied(t) &&
            |Leaves(t)| == Pow8(d) && 7 * InteriorCount(t) + 1 == Pow8(d) &&
            |OccupiedLeaves(t)| == Pow8(d)
  {
    var t := CubeTree(x, y, z, h, R, treeDepth);
    var d := EffectiveDepth(treeDepth);
    CubeNodeShape(d, x, y, z, h, R);
    CompleteCounts(t, d);
    AllOccupiedAllDrawn(t);
  }

  /** r is the half-diagonal of a cube of half-side h. */
  predicate Diagonal(h: real, r: real)
  {
    r >= 0.0 && r * r == 3.0 * h * h
  }

  /** One level of the cube construction: a child centred half a half-side
      away on every axis with half the radius lies inside its parent and
      touches it, given r >= 0 and r * r == 3 * h * h. */
  lemma CubeChildTangent(x: real, y: real, z: real, h: real, r: real, k: nat)
    requires Diagonal(h, r)
    ensures var c := MakeSphere(Step(x, UpX(k), h / 2.0), Step(y, UpY(k), h / 2.0), Step(z, UpZ(k), h / 2.0), r / 2.0);
            InternallyTangent(c, MakeSphere(x, y, z, r))
  {
    var c := MakeSphere(Step(x, UpX(k), h / 2.0), Step(y, UpY(k), h / 2.0), Step(z, UpZ(k), h / 2.0), r / 2.0);
    var p := MakeSphere(x, y, z, r);
    var q := h / 2.0;
    StepSquare(x, UpX(k), q);
    StepSquare(y, UpY(k), q);
    StepSquare(z, UpZ(k), q);
    assert DistSq(c, p) == 3.0 * (q * q);
    assert (r - r / 2.0) * (r - r / 2.0) == r * r / 4.0;
  }

  /** Halving the half-side and the radius together keeps the radius the
      half-diagonal of the cube. */
  lemma HalvingKeepsDiagonal(h: real, r: real)
    requires Diagonal(h, r)
    ensures Diagonal(h / 2.0, r / 2.0)
  {
  }

  /** Containment invariant of the cube tree: starting from the
      circumscribing radius (r * r == 3 * h * h), every child has half its
      parent's radius and lies inside its parent, touching it. */
  lemma {:induction false} CubeNodeNested(levels: nat, x: real, y: real, z: real, h: real, r: real)
    requires Diagonal(h, r)
    ensures Nested(CubeNode(levels, x, y, z, h, r))
    decreases levels, 1
  {
    if levels > 0 {
      var t := CubeNode(levels, x, y, z, h, r);
      forall k | 0 <= k < Arity
        ensures t.kids[k].value.r * 2.0 == t.value.r && InternallyTangent(t.kids[k].value, t.value) && Nested(t.kids[k])
      {
        CubeKidTangent(levels, x, y, z, h, r, k);
        CubeKidNested(levels, x, y, z, h, r, k);
      }
    }
  }

  /** One child of a cube node has half the radius of the node and lies
      inside it, touching it. */
  lemma CubeKidTangent(levels: nat, x: real, y: real, z: real, h: real, r: real, k: nat)
    requires levels > 0 && k < Arity && Diagonal(h, r)
    ensures var t := CubeNode(levels, x, y, z, h, r);
            t.kids[k].value.r * 2.0 == t.value.r && InternallyTangent(t.kids[k].value, t.value)
  {
    CubeKidAt(levels - 1, x, y, z, h, r, k);
    CubeChildTangent(x, y, z, h, r, k);
  }

  /** One child of a cube node is nested itself. */
  lemma {:induction false} CubeKidNested(levels: nat, x: real, y: real, z: real, h: real, r: real, k: nat)
    requires levels > 0 && k < Arity && Diagonal(h, r)
    ensures Nested(CubeNode(levels, x, y, z, h, r).kids[k])
    decreases levels, 0
  {
    var ch, cr := h / 2.0, r / 2.0;
    var cx, cy, cz := Step(x, UpX(k), ch), Step(y, UpY(k), ch), Step(z, UpZ(k), ch);
    HalvingKeepsDiagonal(h, r);
    CubeNodeNested(levels - 1, cx, cy, cz, ch, cr);
    CubeKidAt(levels - 1, x, y, z, h, r, k);
  }

  /** r halved d times. */
  function Halved(r: real, d: nat): real
    decreases d
  {
    if d == 0 then r else Halved(r / 2.0, d - 1)
  }

  /** Halving d times is dividing by 2^d. */
  lemma {:induction false} HalvedIsDivision(r: real, d: nat)
    ensures Halved(r, d) * (Pow2(d) as real) == r
    decreases d
  {
    if d > 0 {
      HalvedIsDivision(r / 2.0, d - 1);
      var p := Pow2(d - 1) as real;
      var q := Halved(r / 2.0, d - 1);
      assert q * p == r / 2.0;
      assert Pow2(d) as real == 2.0 * p;
      assert q * (2.0 * p) == 2.0 * (q * p);
    }
  }

  /** In a complete tree of height d whose children always have half their
      parent's radius, every leaf has the root's radius halved d times. */
  lemma {:induction false} NestedLeafRadius(t: Tree, d: nat, l: Tree)
    requires Complete(t, d) && Nested(t) && l in Leaves(t)
    ensures l.value.r == Halved(t.value.r, d)
  {
    if d == 0 {
      assert Leaves(t) == [t];
    } else {
      LeavesOfNode(t, l);
      var k :| 0 <= k < |t.kids| && l in Leaves(t.kids[k]);
      NestedLeafRadius(t.kids[k], d - 1, l);
      assert t.kids[k].value.r == t.value.r / 2.0;
    }
  }

  /** Each level of the cube tree halves the radius: every leaf of a cube
      tree of depth d >= 1 has radius R / 2^d (at depth 2, a quarter of the
      circumscribing radius). */
  lemma CubeLeafRadius(x: real, y: real, z: real, h: real, R: real, treeDepth: int, l: Tree)
    requires R >= 0.0 && R * R == 3.0 * h * h
    requires l in Leaves(CubeTree(x, y, z, h, R, treeDepth))
    ensures l.value.r * (Pow2(EffectiveDepth(treeDepth)) as real) == R
  {
    var d := EffectiveDepth(treeDepth);
    CubeNodeShape(d, x, y, z, h, R);
    CubeNodeNested(d, x, y, z, h, R);
    NestedLeafRadius(CubeTree(x, y, z, h, R, treeDepth), d, l);
    HalvedIsDivision(R, d);
  }

  /* ---------------------------------------------------------------- */
  /* Completeness of the query                                          */
  /* ---------------------------------------------------------------- */

  /** Every child sphere lies inside its parent's sphere: the invariant
      that lets the query prune a pair of subtrees whose roots are apart. */
  predicate Bounding(t: Tree)
  {
    t.Node? ==>
      forall i :: 0 <= i < |t.kids| ==> Contains(t.value, t.kids[i].value) && Bounding(t.kids[i])
  }

  /** A nested tree is a bounding tree. */
  lemma {:induction false} NestedIsBounding(t: Tree)
    requires Nested(t)
    ensures Bounding(t)
  {
    if t.Node? {
      forall i | 0 <= i < |t.kids|
        ensures Contains(t.value, t.kids[i].value) && Bounding(t.kids[i])
      {
        NestedIsBounding(t.kids[i]);
      }
    }
  }

  /** In a bounding tree, whatever overlaps a leaf overlaps the root. */
  lemma {:induction false} OverlapReachesRoot(s: TreeSphere, t: Tree, l: Tree)
    requires Bounding(t) && l in Leaves(t) && Overlaps(s, l.value)
    ensures Overlaps(s, t.value)
    decreases t
  {
    if t.Node? {
      LeavesOfNode(t, l);
      var i :| 0 <= i < |t.kids| && l in Leaves(t.kids[i]);
      OverlapReachesRoot(s, t.kids[i], l);
      OverlapThroughContainment(s, t.kids[i].value, t.value);
    }
  }

  /** The pruning misses nothing: when every node of the first tree is
      occupied and both trees are bounding, any overlapping pair of leaves
      makes the query report a collision. */
  lemma {:induction false} CheckColComplete(t1: Tree, t2: Tree, l1: Tree, l2: Tree)
    requires AllOccupied(t1) && Bounding(t1) && Bounding(t2)
    requires l1 in Leaves(t1) && l2 in Leaves(t2) && Overlaps(l1.value, l2.value)
    ensures CheckCol(t1, t2)
    decreases t1, t2
  {
    OverlapReachesRoot(l1.value, t2, l2);
    OverlapsSymmetric(l1.value, t2.value);
    OverlapReachesRoot(t2.value, t1, l1);
    OverlapsSymmetric(t2.value, t1.value);
    if t1.Leaf? && t2.Leaf? {
    } else if t1.Leaf? {
      LeavesOfNode(t2, l2);
      var j :| 0 <= j < |t2.kids| && l2 in Leaves(t2.kids[j]);
      CheckColComplete(t1, t2.kids[j], l1, l2);
    } else if t2.Leaf? {
      LeavesOfNode(t1, l1);
      var i :| 0 <= i < |t1.kids| && l1 in Leaves(t1.kids[i]);
      CheckColComplete(t1.kids[i], t2, l1, l2);
    } else {
      LeavesOfNode(t1, l1);
      LeavesOfNode(t2, l2);
      var i :| 0 <= i < |t1.kids| && l1 in Leaves(t1.kids[i]);
      var j :| 0 <= j < |t2.kids| && l2 in Leaves(t2.kids[j]);
      CheckColComplete(t1.kids[i], t2.kids[j], l1, l2);
    }
  }

  /** For an occupied first tree and two bounding trees, the query answers
      exactly whether some leaf of the first overlaps some leaf of the
      second. */
  lemma CheckColExact(t1: Tree, t2: Tree)
    requires AllOccupied(t1) && Bounding(t1) && Bounding(t2)
    ensures CheckCol(t1, t2) <==>
            exists l1, l2 :: l1 in Leaves(t1) && l2 in Leaves(t2) && Overlaps(l1.value, l2.value)
  {
    if CheckCol(t1, t2) {
      CheckColSound(t1, t2);
    }
    if exists l1, l2 :: l1 in Leaves(t1) && l2 in Leaves(t2) && Overlaps(l1.value, l2.value) {
      var l1, l2 :| l1 in Leaves(t1) && l2 in Leaves(t2) && Overlaps(l1.value, l2.value);
      CheckColComplete(t1, t2, l1, l2);
    }
  }

  /** The cube tree is a bounding tree. */
  lemma CubeTreeBounding(x: real, y: real, z: real, h: real, R: real, treeDepth: int)
    requires R >= 0.0 && R * R == 3.0 * h * h
    ensures Bounding(CubeTree(x, y, z, h, R, treeDepth))
  {
    CubeNodeNested(EffectiveDepth(treeDepth), x, y, z, h, R);
    NestedIsBounding(CubeTree(x, y, z, h, R, treeDepth));
  }

  /** An occupied sphere against a cube tree, as in the scene reset builds:
      the query reports a collision exactly when the sphere overlaps some
      leaf sphere of the cube. */
  lemma SphereAgainstCube(s: TreeSphere, x: real, y: real, z: real, h: real, R: real, treeDepth: int)
    requires R >= 0.0 && R * R == 3.0 * h * h
    ensures CheckCol(Leaf(s, true), CubeTree(x, y, z, h, R, treeDepth)) <==>
            exists l :: l in Leaves(CubeTree(x, y, z, h, R, treeDepth)) && Overlaps(s, l.value)
  {
    var t1, t2 := Leaf(s, true), CubeTree(x, y, z, h, R, treeDepth);
    CubeTreeBounding(x, y, z, h, R, treeDepth);
    CheckColExact(t1, t2);
    assert Leaves(t1) == [t1];
  }
}
