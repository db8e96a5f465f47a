/** The heap-level operations of lib/object_w_tree.h: translating a sphere
    tree in place, building the cube tree in place, walking two trees for
    the collision query, and the Object record that owns a sphere tree and
    moves it.  Each method is proved against the tree-value functions of
    module SphereTree. */
module Objects {
  import opened TreeSpheres
  import opened Octree
  import opened SphereTree

  /** updateSphereNode: adds the delta to the centre of every node of the
      subtree rooted at t, in place, and changes nothing else. */
  method UpdateSphereNode(t: OctreeNode, dx: real, dy: real, dz: real)
    requires t.Valid()
    modifies t.Repr
    ensures t.Valid() && t.Repr == old(t.Repr)
    ensures t.Model() == Translate(old(t.Model()), dx, dy, dz)
    decreases t.Repr, 1
  {
    ghost var m0 := t.Model();
    t.SetValue(Shift(t.GetValue(), dx, dy, dz));
    if t.children == null {
      return;
    }
    for i := 0 to Arity
      invariant t.Owned() && t.Repr == old(t.Repr) && t.children == old(t.children)
      invariant t.value == Shift(m0.value, dx, dy, dz) && t.isThere == m0.isThere
      invariant forall k :: 0 <= k < Arity ==> t.children[k].Valid()
      invariant forall k :: 0 <= k < i ==> t.children[k].Model() == Translate(m0.kids[k], dx, dy, dz)
      invariant forall k :: i <= k < Arity ==> t.children[k].Model() == m0.kids[k]
    {
      UpdateChild(t, i, dx, dy, dz);
    }
  }

  /** One iteration of updateSphereNode's loop: translates the subtree in
      slot i and leaves the other seven slots as they were. */
  method UpdateChild(t: OctreeNode, i: nat, dx: real, dy: real, dz: real)
    requires t.Owned() && t.children != null && i < Arity
    requires forall k :: 0 <= k < Arity ==> t.children[k].Valid()
    modifies t.children[i].Repr
    ensures t.Owned() && t.Repr == old(t.Repr)
    ensures forall k :: 0 <= k < Arity ==> t.children[k].Valid()
    ensures t.children[i].Model() == Translate(old(t.children[i].Model()), dx, dy, dz)
    ensures forall k :: 0 <= k < Arity && k != i ==> t.children[k].Model() == old(t.children[k].Model())
    decreases t.Repr, 0
  {
    UpdateSphereNode(t.children[i], dx, dy, dz);
    forall k | 0 <= k < Arity && k != i
      ensures t.children[k].Valid() && t.children[k].Model() == old(t.children[k].Model())
    {
      assert t.children[k].Repr !! t.children[i].Repr;
      assert old(t.children[k].Valid());
      assert unchanged(t.children[k].Repr);
    }
  }

  /** Cube::buildTree: fills the eight empty slots of prevTree with new
      occupied nodes (leaves when no levels remain after them, interior
      nodes otherwise), each with half the half-side and half the radius
      and centred half a half-side away from prevTree's centre along every
      axis, then builds the levels below each child.  The result is the
      value CubeKids describes, every node of it newly allocated and owned
      by prevTree alone. */
  method BuildTree(levelsAfter: nat, prevTree: OctreeNode, halfSide: real, r: real)
    requires prevTree.Unfilled()
    modifies prevTree, prevTree.children
    ensures prevTree.Valid() && fresh(prevTree.Repr - {prevTree, prevTree.children})
    ensures prevTree.children == old(prevTree.children)
    ensures prevTree.value == old(prevTree.value) && prevTree.isThere == old(prevTree.isThere)
    ensures prevTree.Model() ==
              Node(prevTree.value, prevTree.isThere,
                   CubeKids(levelsAfter, prevTree.value.x, prevTree.value.y, prevTree.value.z, halfSide, r))
    decreases levelsAfter, 3
  {
    var nodeType := 1;
    if levelsAfter == 0 {
      nodeType := 0;
    }
    var nHalfSide := halfSide / 2.0;
    var newr := r / 2.0;
    var x, y, z := prevTree.GetValue().x, prevTree.GetValue().y, prevTree.GetValue().z;
    ghost var kids := CubeKids(levelsAfter, x, y, z, halfSide, r);
    var cs := prevTree.children;
    ghost var born := PlaceChildren(cs, nodeType, x, y, z, nHalfSide, newr, levelsAfter, halfSide, r);
    if levelsAfter > 0 {
      born := BuildBelow(cs, levelsAfter, x, y, z, halfSide, r, born);
    }
    AdoptSlots(prevTree, kids, born);
  }

  /** The second loop of buildTree: builds, slot by slot, the levels below
      the eight freshly created interior children. */
  method BuildBelow(cs: array<OctreeNode?>, levelsAfter: nat, x: real, y: real, z: real,
                    halfSide: real, r: real, ghost born: set<object>) returns (ghost born': set<object>)
    requires cs.Length == Arity && cs !in born && levelsAfter > 0
    requires Slots(cs, Arity, CubeKids(levelsAfter, x, y, z, halfSide, r), 0, born)
    modifies born
    ensures Slots(cs, Arity, CubeKids(levelsAfter, x, y, z, halfSide, r), Arity, born')
    ensures born <= born' && fresh(born' - born) && cs !in born'
    decreases levelsAfter, 2
  {
    ghost var kids := CubeKids(levelsAfter, x, y, z, halfSide, r);
    born' := born;
    for i := 0 to Arity
      invariant Slots(cs, Arity, kids, i, born') && born <= born' && fresh(born' - born) && cs !in born'
      invariant forall k :: i <= k < Arity ==> cs[k].children == old(cs[k].children)
    {
      CubeKidUnfold(levelsAfter - 1, x, y, z, halfSide, r, i);
      born' := BuildChild(cs, i, kids, levelsAfter - 1, halfSide / 2.0, r / 2.0, born');
    }
  }

  /** The eight creation statements of buildTree, in the source's slot
      order: each slot receives a new occupied node of the given node type
      whose sphere is that of the matching child in CubeKids. */
  method PlaceChildren(cs: array<OctreeNode?>, nodeType: int, x: real, y: real, z: real,
                       nHalfSide: real, newr: real, ghost levelsAfter: nat, ghost halfSide: real, ghost r: real)
    returns (ghost born: set<object>)
    requires cs.Length == Arity && nHalfSide == halfSide / 2.0 && newr == r / 2.0
    requires nodeType == 0 <==> levelsAfter == 0
    modifies cs
    ensures Slots(cs, Arity, CubeKids(levelsAfter, x, y, z, halfSide, r), if nodeType == 0 then Arity else 0, born)
    ensures fresh(born) && cs !in born
  {
    CubeKidsSpheres(levelsAfter, x, y, z, halfSide, r);
    born := PlaceSpheres(cs, nodeType, x, y, z, nHalfSide, newr, CubeKids(levelsAfter, x, y, z, halfSide, r));
  }

  /** The eight creation statements against any sequence of eight values
      carrying the spheres they create: slots 0-3 lie below the centre
      along z and slots 4-7 above it. */
  method PlaceSpheres(cs: array<OctreeNode?>, nodeType: int, x: real, y: real, z: real,
                      nHalfSide: real, newr: real, ghost kids: seq<Tree>)
    returns (ghost born: set<object>)
    requires cs.Length == Arity && |kids| == Arity
    requires kids[0].value == MakeSphere(x - nHalfSide, y - nHalfSide, z - nHalfSide, newr)
    requires kids[1].value == MakeSphere(x + nHalfSide, y - nHalfSide, z - nHalfSide, newr)
    requires kids[2].value == MakeSphere(x - nHalfSide, y + nHalfSide, z - nHalfSide, newr)
    requires kids[3].value == MakeSphere(x + nHalfSide, y + nHalfSide, z - nHalfSide, newr)
    requires kids[4].value == MakeSphere(x - nHalfSide, y - nHalfSide, z + nHalfSide, newr)
    requires kids[5].value == MakeSphere(x + nHalfSide, y - nHalfSide, z + nHalfSide, newr)
    requires kids[6].value == MakeSphere(x - nHalfSide, y + nHalfSide, z + nHalfSide, newr)
    requires kids[7].value == MakeSphere(x + nHalfSide, y + nHalfSide, z + nHalfSide, newr)
    requires forall k :: 0 <= k < Arity ==> kids[k].isThere && (kids[k].Leaf? <==> nodeType == 0)
    modifies cs
    ensures Slots(cs, Arity, kids, if nodeType == 0 then Arity else 0, born)
    ensures fresh(born) && cs !in born
  {
    ghost var low := PlaceLayer(cs, 0, nodeType, x, y, z - nHalfSide, nHalfSide, newr, kids, {});
    label Mid:
    born := PlaceLayer(cs, 4, nodeType, x, y, z + nHalfSide, nHalfSide, newr, kids, low);
    forall o | o in born
      ensures !old(allocated(o))
    {
      if o !in low {
        assert !old@Mid(allocated(o));
      }
    }
    PlacedSlots(cs, nodeType, kids, born);
  }

  /** Four consecutive creation statements of buildTree, for the children
      whose centres share the height zc. */
  method PlaceLayer(cs: array<OctreeNode?>, k: nat, nodeType: int, x: real, y: real, zc: real,
                    nHalfSide: real, newr: real, ghost kids: seq<Tree>, ghost born: set<object>)
    returns (ghost born': set<object>)
    requires k + 4 <= cs.Length && k + 4 <= |kids| && cs !in born
    requires Placed(cs, k, kids, born)
    requires kids[k].value == MakeSphere(x - nHalfSide, y - nHalfSide, zc, newr)
    requires kids[k + 1].value == MakeSphere(x + nHalfSide, y - nHalfSide, zc, newr)
    requires kids[k + 2].value == MakeSphere(x - nHalfSide, y + nHalfSide, zc, newr)
    requires kids[k + 3].value == MakeSphere(x + nHalfSide, y + nHalfSide, zc, newr)
    requires forall l :: k <= l < k + 4 ==> kids[l].isThere && (kids[l].Leaf? <==> nodeType == 0)
    modifies cs
    ensures Placed(cs, k + 4, kids, born')
    ensures born <= born' && fresh(born' - born) && cs !in born'
  {
    born' := PlaceChild(cs, k, nodeType, MakeSphere(x - nHalfSide, y - nHalfSide, zc, newr), kids, born);
    born' := PlaceChild(cs, k + 1, nodeType, MakeSphere(x + nHalfSide, y - nHalfSide, zc, newr), kids, born');
    born' := PlaceChild(cs, k + 2, nodeType, MakeSphere(x - nHalfSide, y + nHalfSide, zc, newr), kids, born');
    born' := PlaceChild(cs, k + 3, nodeType, MakeSphere(x + nHalfSide, y + nHalfSide, zc, newr), kids, born');
  }

  /** The state of the first n slots of cs during buildTree: every slot is
      filled with a node owned through born, the first `ready` of them hold
      finished subtrees with the values in kids, the rest are still empty
      interior nodes carrying the sphere of the value they will hold; no two
      slots share a node. */
  ghost predicate Slots(cs: array<OctreeNode?>, n: nat, kids: seq<Tree>, ready: nat, born: set<object>)
    reads cs, born
    requires n <= cs.Length && n <= |kids|
  {
    (forall k :: 0 <= k < n ==>
       cs[k] != null && cs[k] in born && cs[k].Repr <= born &&
       (k < ready ==> cs[k].Valid() && cs[k].Model() == kids[k]) &&
       (ready <= k ==> cs[k].children in born && cs[k].Unfilled() &&
                       cs[k].value == kids[k].value && cs[k].isThere)) &&
    (forall k, l :: 0 <= k < l < n && cs[k] != null && cs[l] != null && cs[k] in born && cs[l] in born ==>
       cs[k].Repr !! cs[l].Repr)
  }

  /** The first n slots of cs after the creation statements: each holds an
      occupied node carrying the sphere of the matching value in kids, a
      finished leaf where that value is a leaf and an empty interior node
      otherwise; no two slots share a node. */
  ghost predicate Placed(cs: array<OctreeNode?>, n: nat, kids: seq<Tree>, born: set<object>)
    reads cs, born
    requires n <= cs.Length && n <= |kids|
  {
    (forall k :: 0 <= k < n ==>
       cs[k] != null && cs[k] in born && cs[k].Repr <= born &&
       cs[k].value == kids[k].value && cs[k].isThere &&
       (kids[k].Leaf? ==> cs[k].Valid() && cs[k].Model() == kids[k]) &&
       (kids[k].Node? ==> cs[k].children in born && cs[k].Unfilled())) &&
    (forall k, l :: 0 <= k < l < n && cs[k] != null && cs[l] != null && cs[k] in born && cs[l] in born ==>
       cs[k].Repr !! cs[l].Repr)
  }

  /** Once all eight slots are placed, they are all finished (leaf level,
      node type 0) or all still to be built (interior level). */
  lemma PlacedSlots(cs: array<OctreeNode?>, nodeType: int, kids: seq<Tree>, born: set<object>)
    requires cs.Length == Arity && |kids| == Arity && Placed(cs, Arity, kids, born)
    requires forall k :: 0 <= k < Arity ==> kids[k].isThere && (kids[k].Leaf? <==> nodeType == 0)
    ensures Slots(cs, Arity, kids, if nodeType == 0 then Arity else 0, born)
  {
  }

  /** One of the eight creation statements of buildTree: slot k receives a
      new occupied node of the given node type and sphere. */
  method PlaceChild(cs: array<OctreeNode?>, k: nat, nodeType: int, s: TreeSphere, ghost kids: seq<Tree>,
                    ghost born: set<object>) returns (ghost born': set<object>)
    requires k < cs.Length && k < |kids| && cs !in born
    requires Placed(cs, k, kids, born)
    requires s == kids[k].value && kids[k].isThere && (kids[k].Leaf? <==> nodeType == 0)
    modifies cs
    ensures Placed(cs, k + 1, kids, born')
    ensures born <= born' && fresh(born' - born) && cs !in born'
  {
    var c := new OctreeNode(nodeType, s, true);
    cs[k] := c;
    born' := born + c.Repr;
  }

  /** One iteration of buildTree's second loop: builds the levels below the
      node in slot i, leaving the other slots as they were. */
  method BuildChild(cs: array<OctreeNode?>, i: nat, ghost kids: seq<Tree>, levelsAfter: nat,
                    halfSide: real, r: real, ghost born: set<object>) returns (ghost born': set<object>)
    requires cs.Length == Arity && |kids| == Arity && i < Arity && cs !in born
    requires Slots(cs, Arity, kids, i, born)
    requires kids[i] == Node(kids[i].value, true,
                             CubeKids(levelsAfter, kids[i].value.x, kids[i].value.y, kids[i].value.z, halfSide, r))
    modifies cs[i], cs[i].children
    ensures Slots(cs, Arity, kids, i + 1, born')
    ensures born <= born' && fresh(born' - born) && cs !in born'
    decreases levelsAfter + 1, 0
  {
    var c := cs[i];
    BuildTree(levelsAfter, c, halfSide, r);
    born' := born + c.Repr;
  }

  /** The closing ghost step of buildTree: with every slot finished,
      prevTree takes ownership of what the slots own, and is then valid and
      holds the eight subtrees. */
  ghost method AdoptSlots(t: OctreeNode, kids: seq<Tree>, born: set<object>)
    requires t.children != null && t.children.Length == Arity && |kids| == Arity
    requires Slots(t.children, Arity, kids, Arity, born)
    requires t !in born && t.children !in born
    modifies t`Repr
    ensures t.Repr == {t, t.children} + born
    ensures t.Valid() && t.Model() == Node(t.value, t.isThere, kids)
  {
    t.Repr := {t, t.children} + born;
    assert t.Owned();
    assert t.Valid();
    assert t.Model().kids == kids;
  }

  /** checkColRecursive on the heap: the same pruning test and the same
      descent order as the source, returning as soon as a pair of subtrees
      reports a collision.  The verdict is that of CheckCol on the two
      trees' values. */
  method CheckColRecursive(t1: OctreeNode, t2: OctreeNode) returns (b: bool)
    requires t1.Valid() && t2.Valid()
    ensures b == CheckCol(t1.Model(), t2.Model())
    decreases t1.Repr, t2.Repr, 2
  {
    var s1, s2 := t1.GetValue(), t2.GetValue();
    ghost var m1, m2 := t1.Model(), t2.Model();
    if Overlaps(s1, s2) && t1.isThere {
      if t1.children == null && t2.children == null {
        return true;
      }
      CheckColBySlices(m1, m2);
      b := CheckColLoop(t1, t2, m1, m2);
      assert b == CheckCol(m1, m2);
      return;
    }
    return false;
  }

  /** The loop over i of checkColRecursive, once the roots pass the
      pruning test and one of them is interior: the slices in turn,
      stopping at the first collision. */
  method CheckColLoop(t1: OctreeNode, t2: OctreeNode, ghost m1: Tree, ghost m2: Tree) returns (hit: bool)
    requires t1.Valid() && t2.Valid() && (t1.children != null || t2.children != null)
    requires m1 == t1.Model() && m2 == t2.Model()
    ensures hit == exists i :: 0 <= i < Arity && SliceHit(m1, m2, i)
    decreases t1.Repr, t2.Repr, 1
  {
    for i := 0 to Arity
      invariant forall k :: 0 <= k < i ==> !SliceHit(m1, m2, k)
    {
      hit := CheckColSlice(t1, t2, i);
      if hit {
        return;
      }
    }
    return false;
  }

  /** One iteration of checkColRecursive's loop over i. */
  method CheckColSlice(t1: OctreeNode, t2: OctreeNode, i: nat) returns (hit: bool)
    requires t1.Valid() && t2.Valid() && i < Arity
    requires t1.children != null || t2.children != null
    ensures hit == SliceHit(t1.Model(), t2.Model(), i)
    decreases t1.Repr, t2.Repr, 0
  {
    ghost var m1, m2 := t1.Model(), t2.Model();
    if t1.children == null {
      t2.ModelKid(i);
      hit := CheckColRecursive(t1, t2.children[i]);
    } else if t2.children == null {
      t1.ModelKid(i);
      hit := CheckColRecursive(t1.children[i], t2);
    } else {
      t1.ModelKid(i);
      hit := CheckColRow(t1.children[i], t2, m1.kids[i], m2.kids);
    }
  }

  /** The inner loop over j of checkColRecursive, when both nodes are
      interior: child a of the first tree (whose value is m) against each
      child of t2 (whose values are ks) in turn, stopping at the first
      collision. */
  method CheckColRow(a: OctreeNode, t2: OctreeNode, ghost m: Tree, ghost ks: seq<Tree>) returns (hit: bool)
    requires a.Valid() && t2.Valid() && t2.children != null
    requires m == a.Model() && ks == t2.Model().kids
    ensures hit == exists j :: 0 <= j < Arity && CheckCol(m, ks[j])
    decreases a.Repr, t2.Repr, 1
  {
    hit := false;
    for j := 0 to Arity
      invariant forall l :: 0 <= l < j ==> !CheckCol(m, ks[l])
    {
      hit := CheckColKid(a, t2, j, m, ks);
      if hit {
        return;
      }
    }
  }

  /** One iteration of the inner loop over j: child a against slot j of t2. */
  method CheckColKid(a: OctreeNode, t2: OctreeNode, j: nat, ghost m: Tree, ghost ks: seq<Tree>) returns (hit: bool)
    requires a.Valid() && t2.Valid() && t2.children != null && j < Arity
    requires m == a.Model() && ks == t2.Model().kids
    ensures hit == CheckCol(m, ks[j])
    decreases a.Repr, t2.Repr, 0
  {
    t2.ModelKid(j);
    hit := CheckColRecursive(a, t2.children[j]);
  }

  /** drawRecurse: walks the tree in slot order and draws the sphere of
      every occupied leaf; the drawing call itself is recorded as the
      sequence of spheres drawn. */
  method DrawRecurse(t: OctreeNode) returns (drawn: seq<TreeSphere>)
    requires t.Valid()
    ensures drawn == OccupiedLeaves(t.Model())
    decreases t.Repr
  {
    ghost var m := t.Model();
    if t.children != null {
      ghost var parts := seq(Arity, i requires 0 <= i < Arity => OccupiedLeaves(m.kids[i]));
      drawn := [];
      for i := 0 to Arity
        invariant drawn == Concat(parts[..i])
      {
        t.ModelKid(i);
        var d := DrawRecurse(t.children[i]);
        ConcatAppend(parts[..i], parts[i]);
        assert parts[..i + 1] == parts[..i] + [parts[i]];
        drawn := drawn + d;
      }
      assert parts[..Arity] == parts;
    } else if t.isThere {
      drawn := [t.GetValue()];
    } else {
      drawn := [];
    }
  }

  /** A zero speed moves nothing, whatever the elapsed time. */
  lemma ZeroStep(speed: real, elapsedTime: real)
    requires speed == 0.0
    ensures speed * elapsedTime == 0.0
  {
  }

  /** Whether or not update translates the tree, the tree moves by exactly
      the change of the object's position (when the object is still, the
      position does not change either), so a tree whose root sphere was
      centred on the old position is centred on the new one. */
  lemma TreeFollowsPosition(m0: Tree, m: Tree, x0: real, y0: real, z0: real, x: real, y: real, z: real,
                            vx: real, vy: real, vz: real, dt: real)
    requires x == x0 + vx * dt && y == y0 + vy * dt && z == z0 + vz * dt
    requires m == if vx != 0.0 || vy != 0.0 || vz != 0.0 then Translate(m0, vx * dt, vy * dt, vz * dt) else m0
    ensures m == Translate(m0, x - x0, y - y0, z - z0)
    ensures m0.value.x == x0 && m0.value.y == y0 && m0.value.z == z0 ==>
            m.value.x == x && m.value.y == y && m.value.z == z
  {
    if !(vx != 0.0 || vy != 0.0 || vz != 0.0) {
      ZeroStep(vx, dt);
      ZeroStep(vy, dt);
      ZeroStep(vz, dt);
      TranslateZero(m0);
    }
  }

  /** The solid an object is drawn as; only its size is kept. */
  datatype Shape = SphereShape(r: real) | CubeShape(halfSide: real)

  /** An object of the scene: a position, a velocity and an acceleration,
      the collision latch, and the sphere tree that stands for its volume. */
  class Object {
    var x: real, y: real, z: real
    var xSpeed: real, ySpeed: real, zSpeed: real
    var xAccel: real, yAccel: real, zAccel: real
    var spaceTree: OctreeNode
    /** Set while the object is in a collision already answered by a bounce. */
    var colliding: bool
    const shape: Shape

    /** Every node and array of the object's sphere tree. */
    ghost var Repr: set<object>

    /** The object owns a valid sphere tree; only the fields spaceTree and
        Repr of the object itself are read, so writing its position,
        velocity or latch keeps it valid. */
    ghost predicate Valid()
      reads this`spaceTree, this`Repr, Repr
    {
      spaceTree in Repr && Repr == spaceTree.Repr && this !in Repr && spaceTree.Valid()
    }

    /** The root sphere of the tree is centred on the object's position. */
    predicate Tracks()
      reads this, spaceTree
    {
      spaceTree.value.x == x && spaceTree.value.y == y && spaceTree.value.z == z
    }

    /** getVel() != 0: over the reals the magnitude of the velocity is zero
        exactly when its three components are. */
    predicate Moving()
      reads this
    {
      xSpeed != 0.0 || ySpeed != 0.0 || zSpeed != 0.0
    }

    /** The Sphere constructor: an object at rest at (x, y, z) whose tree is
        a single occupied leaf holding the sphere of radius r there. */
    constructor Sphere(x: real, y: real, z: real, r: real)
      ensures Valid() && fresh(Repr) && Tracks()
      ensures this.x == x && this.y == y && this.z == z && !colliding && shape == SphereShape(r)
      ensures xSpeed == 0.0 && ySpeed == 0.0 && zSpeed == 0.0
      ensures xAccel == 0.0 && yAccel == 0.0 && zAccel == 0.0
      ensures spaceTree.Model() == Leaf(MakeSphere(x, y, z, r), true)
    {
      this.x, this.y, this.z := x, y, z;
      xSpeed, ySpeed, zSpeed := 0.0, 0.0, 0.0;
      xAccel, yAccel, zAccel := 0.0, 0.0, 0.0;
      colliding := false;
      shape := SphereShape(r);
      var root := new OctreeNode(0, MakeSphere(x, y, z, r), true);
      spaceTree := root;
      Repr := root.Repr;
    }

    /** The Cube constructor, for a cube of half-side halfSide centred at
        (x, y, z); R is the length of the half-diagonal (the magnitude of
        (halfSide, halfSide, halfSide)).  A depth of at least one builds the
        complete cube tree below an occupied interior root; any smaller
        depth gives a single occupied leaf. */
    constructor Cube(x: real, y: real, z: real, halfSide: real, R: real, treeDepth: int)
      requires R >= 0.0 && R * R == 3.0 * halfSide * halfSide
      ensures Valid() && fresh(Repr) && Tracks()
      ensures this.x == x && this.y == y && this.z == z && !colliding && shape == CubeShape(halfSide)
      ensures xSpeed == 0.0 && ySpeed == 0.0 && zSpeed == 0.0
      ensures xAccel == 0.0 && yAccel == 0.0 && zAccel == 0.0
      ensures spaceTree.Model() == CubeTree(x, y, z, halfSide, R, treeDepth)
    {
      this.x, this.y, this.z := x, y, z;
      xSpeed, ySpeed, zSpeed := 0.0, 0.0, 0.0;
      xAccel, yAccel, zAccel := 0.0, 0.0, 0.0;
      colliding := false;
      shape := CubeShape(halfSide);
      var root;
      if treeDepth >= 1 {
        root := new OctreeNode(1, MakeSphere(x, y, z, R), true);
        BuildTree(treeDepth - 1, root, halfSide, R);
      } else {
        root := new OctreeNode(0, MakeSphere(x, y, z, R), true);
      }
      spaceTree := root;
      Repr := root.Repr;
    }

    /** checkCollision: the collision query between the two objects'
        trees.  A positive answer is backed by an occupied leaf of this
        object's tree and a leaf of the other's whose spheres overlap; when
        this tree is occupied throughout and both trees are bounding, every
        such pair of leaves is found. */
    method CheckCollision(other: Object) returns (b: bool)
      requires Valid() && other.Valid()
      ensures b == CheckCol(spaceTree.Model(), other.spaceTree.Model())
      ensures b ==> exists l1, l2 :: l1 in Leaves(spaceTree.Model()) && l2 in Leaves(other.spaceTree.Model()) &&
                                     l1.isThere && Overlaps(l1.value, l2.value)
      ensures AllOccupied(spaceTree.Model()) && Bounding(spaceTree.Model()) && Bounding(other.spaceTree.Model()) ==>
                (b <==> exists l1, l2 :: l1 in Leaves(spaceTree.Model()) && l2 in Leaves(other.spaceTree.Model()) &&
                                         Overlaps(l1.value, l2.value))
    {
      b := CheckColRecursive(spaceTree, other.spaceTree);
      ghost var m1, m2 := spaceTree.Model(), other.spaceTree.Model();
      if b {
        CheckColSound(m1, m2);
      }
      if AllOccupied(m1) && Bounding(m1) && Bounding(m2) {
        CheckColExact(m1, m2);
      }
    }

    /** drawSphereTree: the spheres of the occupied leaves, in slot order. */
    method DrawSphereTree() returns (drawn: seq<TreeSphere>)
      requires Valid()
      ensures drawn == OccupiedLeaves(spaceTree.Model())
    {
      drawn := DrawRecurse(spaceTree);
    }

    /** setVel: replaces the velocity and nothing else. */
    method SetVel(vx: real, vy: real, vz: real)
      modifies this`xSpeed, this`ySpeed, this`zSpeed
      ensures xSpeed == vx && ySpeed == vy && zSpeed == vz
    {
      xSpeed, ySpeed, zSpeed := vx, vy, vz;
    }

    /** update: advances the velocity by the acceleration and the position
        by the new velocity over the elapsed time, and, when the object is
        moving, translates its sphere tree by the same step.  The fields not
        named in the modifies clause (the accelerations, the latch, the
        shape and the tree root) keep their values.  TreeFollowsPosition
        shows that either way the tree moves exactly as the position does. */
    method Update(elapsedTime: real)
      requires Valid()
      modifies this`x, this`y, this`z, this`xSpeed, this`ySpeed, this`zSpeed, spaceTree.Repr
      ensures Valid()
      ensures xSpeed == old(xSpeed) + old(xAccel) * elapsedTime
      ensures ySpeed == old(ySpeed) + old(yAccel) * elapsedTime
      ensures zSpeed == old(zSpeed) + old(zAccel) * elapsedTime
      ensures x == old(x) + xSpeed * elapsedTime && y == old(y) + ySpeed * elapsedTime &&
              z == old(z) + zSpeed * elapsedTime
      ensures spaceTree.Model() ==
                if Moving() then Translate(old(spaceTree.Model()), xSpeed * elapsedTime, ySpeed * elapsedTime, zSpeed * elapsedTime)
                else old(spaceTree.Model())
    {
      xSpeed := xSpeed + xAccel * elapsedTime;
      ySpeed := ySpeed + yAccel * elapsedTime;
      zSpeed := zSpeed + zAccel * elapsedTime;

      x := x + xSpeed * elapsedTime;
      y := y + ySpeed * elapsedTime;
      z := z + zSpeed * elapsedTime;

      ShiftIfMoving(elapsedTime);
    }

    /** The branch of update that moves the tree: when some velocity
        component is non-zero, the tree is translated by the velocity times
        the elapsed time; otherwise it is left alone. */
    method ShiftIfMoving(elapsedTime: real)
      requires Valid()
      modifies spaceTree.Repr
      ensures Valid() && Repr == old(Repr)
      ensures spaceTree.Model() ==
                if Moving() then Translate(old(spaceTree.Model()), xSpeed * elapsedTime, ySpeed * elapsedTime, zSpeed * elapsedTime)
                else old(spaceTree.Model())
    {
      if xSpeed != 0.0 || ySpeed != 0.0 || zSpeed != 0.0 {
        UpdateSphereNode(spaceTree, xSpeed * elapsedTime, ySpeed * elapsedTime, zSpeed * elapsedTime);
      }
    }
  }
}
