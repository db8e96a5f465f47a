/** The octree node of the sphere tree (lib/octree.h).

    A node holds one bounding sphere and an occupancy flag ("is there"),
    and is either a leaf (no child array) or an interior node owning an
    array of exactly eight child slots.  The class OctreeNode is the node
    as the program keeps it on the heap; the datatype Tree is its value,
    which the specification functions of the sphere tree work on. */
module Octree {
  import opened TreeSpheres

  /** The number of child slots of an interior node. */
  const Arity := 8

  /** The value of a sphere (sub)tree. */
  datatype Tree =
    | Leaf(value: TreeSphere, isThere: bool)
    | Node(value: TreeSphere, isThere: bool, kids: seq<Tree>)

  /** Every interior node has exactly eight children. */
  predicate WellFormed(t: Tree)
  {
    match t
    case Leaf(_, _) => true
    case Node(_, _, kids) => |kids| == Arity && forall i :: 0 <= i < |kids| ==> WellFormed(kids[i])
  }

  class OctreeNode {
    var value: TreeSphere
    /** null for a leaf; an array of eight slots for an interior node. */
    var children: array?<OctreeNode?>
    var isThere: bool

    /** The node, its child array and every node and array below it. */
    ghost var Repr: set<object>

    /** The node's own share of the ownership invariant: the node is a leaf,
        or an interior node whose eight slots are filled with nodes it owns
        exclusively: no child is shared between two slots, and no subtree
        reaches back to this node or its array. */
    ghost predicate Owned()
      reads this, Repr
    {
      this in Repr &&
      (children != null ==>
        children in Repr && children.Length == Arity &&
        (forall i :: 0 <= i < Arity ==>
          children[i] != null && children[i] in Repr && children[i].Repr <= Repr &&
          this !in children[i].Repr && children !in children[i].Repr) &&
        (forall i, j :: 0 <= i < j < Arity ==> children[i].Repr !! children[j].Repr))
    }

    /** Every node of the subtree satisfies Owned. */
    ghost predicate Valid()
      reads this, Repr
      decreases Repr
    {
      Owned() && (children != null ==> forall i :: 0 <= i < Arity ==> children[i].Valid())
    }

    /** An interior node as the constructor leaves it: eight empty (null)
        slots, owning nothing but itself and its array. */
    ghost predicate Unfilled()
      reads this, children
    {
      children != null && children.Length == Arity &&
      (forall i :: 0 <= i < Arity ==> children[i] == null) &&
      Repr == {this, children}
    }

    /** The value of the subtree rooted at this node. */
    ghost function Model(): (t: Tree)
      reads this, Repr
      requires Valid()
      ensures WellFormed(t)
      ensures t.value == value && t.isThere == isThere && (t.Leaf? <==> children == null)
      decreases Repr, Arity + 1
    {
      if children == null then Leaf(value, isThere)
      else Node(value, isThere, KidModels(Arity))
    }

    /** The values of the subtrees in the first n slots. */
    ghost function KidModels(n: nat): (ms: seq<Tree>)
      reads this, Repr
      requires Valid() && children != null && n <= Arity
      ensures |ms| == n
      ensures forall k :: 0 <= k < n ==> ms[k] == children[k].Model()
      decreases Repr, n
    {
      if n == 0 then [] else KidModels(n - 1) + [children[n - 1].Model()]
    }

    /** Slot k of an interior node holds the value of its k-th child. */
    lemma ModelKid(k: nat)
      requires Valid() && children != null && k < Arity
      ensures children[k] != null && children[k].Valid() && Model().kids[k] == children[k].Model()
    {
    }

    /** The default constructor: an unoccupied leaf holding the default
        sphere. */
    constructor Empty()
      ensures Valid() && fresh(Repr)
      ensures Model() == Leaf(DefaultSphere(), false)
    {
      value := DefaultSphere();
      children := null;
      isThere := false;
      Repr := {this};
    }

    /** The constructor used by the builders: node type 0 makes a leaf, any
        other node type an interior node with a fresh array of eight empty
        (null) slots, to be filled by the caller.  The sphere and the flag
        are stored as given. */
    constructor (nodeType: int, value: TreeSphere, isThere: bool)
      ensures this.value == value && this.isThere == isThere
      ensures nodeType == 0 ==> children == null && Repr == {this} && Valid() && Model() == Leaf(value, isThere)
      ensures nodeType != 0 ==> Unfilled() && fresh(children)
    {
      this.value := value;
      this.isThere := isThere;
      if nodeType == 0 {
        children := null;
        Repr := {this};
      } else {
        var slots := new OctreeNode?[Arity];
        for i := 0 to Arity
          invariant forall k :: 0 <= k < i ==> slots[k] == null
        {
          slots[i] := null;
        }
        children := slots;
        Repr := {this, slots};
      }
    }

    /** Read access to the stored sphere. */
    function GetValue(): TreeSphere
      reads this
    {
      value
    }

    /** A write through the reference that getValue hands out: it replaces
        this node's sphere and nothing else, so the subtree keeps its shape,
        its flags and every other node's sphere. */
    method SetValue(s: TreeSphere)
      requires Valid()
      modifies this`value
      ensures Valid() && Repr == old(Repr)
      ensures Model() == old(Model()).(value := s)
    {
      value := s;
    }
  }
}
