/** The scene of the demonstration program (collision.cpp): the list of
    objects, the collision sweep checkCollisions with its edge-triggered
    `colliding` latch, and the state-changing keys of the keyboard handler.

    The sweep is specified on values first: a Body is what the sweep reads
    and writes of one object, PairOutcome is one examined pair, Pairs(n)
    the order in which the pairs are examined and Run the whole sweep.  The
    class Scene holds the objects on the heap; its CheckCollisions is
    proved to compute Sweep, which SweepIsRun equates with Run over Pairs.

    The response to a collision (Object::bounce) is a parameter `bounce`
    on the two velocities; nothing is assumed about it. */
module Collision {
  import opened TreeSpheres
  import opened Octree
  import opened SphereTree
  import opened Objects

  /** A velocity (xSpeed, ySpeed, zSpeed). */
  datatype Vel = Vel(x: real, y: real, z: real)

  /** getVel() != 0: over the reals the magnitude is non-zero exactly when
      some component is. */
  predicate MovingVel(v: Vel)
  {
    v.x != 0.0 || v.y != 0.0 || v.z != 0.0
  }

  /** What the sweep reads and writes of one object: its velocity, its
      latch and the value of its sphere tree. */
  datatype Body = Body(vel: Vel, colliding: bool, tree: Tree)

  /** A response to a collision, on the velocities of the two objects. */
  type Bounce = (Vel, Vel) -> (Vel, Vel)

  /* ---------------------------------------------------------------- */
  /* One examined pair                                                 */
  /* ---------------------------------------------------------------- */

  /** The body of the inner loop of checkCollisions for the pair (a, b),
      where a is objects[i] and b is objects[j].  A pair in which neither
      object moves is skipped.  Otherwise a hit answered by a clear latch
      sets the latch of a and bounces the two objects once, a hit with the
      latch already set changes nothing, and a miss clears the latch of a.
      The latch of b is never written and no tree changes; after an
      examined pair the latch of a says whether the two trees collide. */
  function PairOutcome(a: Body, b: Body, bounce: Bounce): (r: (Body, Body))
    ensures r.0.tree == a.tree && r.1.tree == b.tree
    ensures r.1.colliding == b.colliding
    ensures !MovingVel(a.vel) && !MovingVel(b.vel) ==> r == (a, b)
    ensures MovingVel(a.vel) || MovingVel(b.vel) ==> r.0.colliding == CheckCol(a.tree, b.tree)
    ensures r.0.colliding == a.colliding ==> r == (a, b)
    ensures r != (a, b) ==> r.0.colliding != a.colliding
  {
    if !MovingVel(a.vel) && !MovingVel(b.vel) then (a, b)
    else if CheckCol(a.tree, b.tree) then
      if !a.colliding then
        var v := bounce(a.vel, b.vel);
        (a.(colliding := true, vel := v.0), b.(vel := v.1))
      else (a, b)
    else (a.(colliding := false), b)
  }

  /** Onset of a collision: with some object moving, overlapping trees and
      a clear latch, the latch of a is set and both objects take the
      velocities of one application of bounce. */
  lemma PairOnset(a: Body, b: Body, bounce: Bounce)
    requires MovingVel(a.vel) || MovingVel(b.vel)
    requires CheckCol(a.tree, b.tree) && !a.colliding
    ensures var r := PairOutcome(a, b, bounce);
            r.0 == Body(bounce(a.vel, b.vel).0, true, a.tree) &&
            r.1 == Body(bounce(a.vel, b.vel).1, b.colliding, b.tree)
  {
  }

  /** A miss clears the latch of a and changes nothing else. */
  lemma PairMiss(a: Body, b: Body, bounce: Bounce)
    requires MovingVel(a.vel) || MovingVel(b.vel)
    requires !CheckCol(a.tree, b.tree)
    ensures PairOutcome(a, b, bounce) == (a.(colliding := false), b)
  {
  }

  /** The pair p = (i, j) examined in the sequence bs; a pair that does
      not name two objects of bs in increasing order changes nothing. */
  function PairStep(bs: seq<Body>, p: (nat, nat), bounce: Bounce): (r: seq<Body>)
    ensures |r| == |bs|
  {
    if p.0 < p.1 < |bs| then
      var o := PairOutcome(bs[p.0], bs[p.1], bounce);
      bs[p.0 := o.0][p.1 := o.1]
    else bs
  }

  /** Examining the pair p writes only the two bodies of p, moves no tree
      and writes no latch but that of the first. */
  lemma PairStepFrame(bs: seq<Body>, p: (nat, nat), bounce: Bounce, k: nat)
    requires k < |bs|
    ensures PairStep(bs, p, bounce)[k].tree == bs[k].tree
    ensures k != p.0 ==> PairStep(bs, p, bounce)[k].colliding == bs[k].colliding
    ensures k != p.0 && k != p.1 ==> PairStep(bs, p, bounce)[k] == bs[k]
  {
  }

  /* ---------------------------------------------------------------- */
  /* The order of the pairs                                            */
  /* ---------------------------------------------------------------- */

  /** Every pair of ps is two indices below n, the first the smaller. */
  predicate InRange(ps: seq<(nat, nat)>, n: nat)
  {
    forall k :: 0 <= k < |ps| ==> ps[k].0 < ps[k].1 < n
  }

  /** The pairs (i, a), (i, a + 1), ..., (i, b - 1). */
  function Seg(i: nat, a: nat, b: nat): (ps: seq<(nat, nat)>)
    ensures |ps| == if a <= b then b - a else 0
    decreases b
  {
    if b <= a then [] else Seg(i, a, b - 1) + [(i, b - 1)]
  }

  /** Position k of a row holds the pair (i, a + k). */
  lemma {:induction false} SegAt(i: nat, a: nat, b: nat, k: nat)
    requires a + k < b
    ensures Seg(i, a, b)[k] == (i, a + k)
    decreases b
  {
    if a + k < b - 1 {
      SegAt(i, a, b - 1, k);
    }
  }

  /** The pairs the sweep examines for the first i values of the outer
      loop: row after row, each row (r, r + 1), ..., (r, n - 1). */
  function Prefix(i: nat, n: nat): seq<(nat, nat)>
  {
    if i == 0 then [] else Prefix(i - 1, n) + Seg(i - 1, i, n)
  }

  /** The number of values the outer loop of checkCollisions takes: all
      indices but the last, and none for an empty scene. */
  function OuterBound(n: nat): (b: nat)
    ensures b < n || b == 0
    ensures n > 0 ==> b + 1 == n
  {
    if n == 0 then 0 else n - 1
  }

  /** All pairs of one sweep over n objects, in the order examined. */
  function Pairs(n: nat): seq<(nat, nat)>
  {
    Prefix(OuterBound(n), n)
  }

  /** p comes strictly before q in the row-by-row order. */
  predicate Before(p: (nat, nat), q: (nat, nat))
  {
    p.0 < q.0 || (p.0 == q.0 && p.1 < q.1)
  }

  /** The pairs of the first i rows are exactly the pairs (r, c) with
      r < i and r < c < n. */
  lemma {:induction false} PrefixMembers(i: nat, n: nat, p: (nat, nat))
    ensures p in Prefix(i, n) <==> p.0 < i && p.0 < p.1 < n
  {
    if i > 0 {
      PrefixMembers(i - 1, n, p);
      SegMembers(i - 1, i, n, p);
      assert Prefix(i, n) == Prefix(i - 1, n) + Seg(i - 1, i, n);
    }
  }

  /** The pairs of a row are exactly (i, c) with a <= c < b. */
  lemma {:induction false} SegMembers(i: nat, a: nat, b: nat, p: (nat, nat))
    ensures p in Seg(i, a, b) <==> p.0 == i && a <= p.1 < b
    decreases b
  {
    if a < b {
      SegMembers(i, a, b - 1, p);
    }
  }

  /** Every pair of the first i rows is in range and the first row index
      stays below i. */
  lemma {:induction false} PrefixInRange(i: nat, n: nat)
    ensures InRange(Prefix(i, n), n)
    ensures forall k :: 0 <= k < |Prefix(i, n)| ==> Prefix(i, n)[k].0 < i
  {
    forall k | 0 <= k < |Prefix(i, n)|
      ensures Prefix(i, n)[k].0 < Prefix(i, n)[k].1 < n && Prefix(i, n)[k].0 < i
    {
      PrefixMembers(i, n, Prefix(i, n)[k]);
    }
  }

  /** The pairs of the first i rows come in strictly increasing order, so
      no pair is examined twice. */
  lemma {:induction false} PrefixSorted(i: nat, n: nat)
    ensures forall a, b :: 0 <= a < b < |Prefix(i, n)| ==> Before(Prefix(i, n)[a], Prefix(i, n)[b])
  {
    if i > 0 {
      PrefixSorted(i - 1, n);
      PrefixInRange(i - 1, n);
      var front, s := Prefix(i - 1, n), Seg(i - 1, i, n);
      assert Prefix(i, n) == front + s;
      forall a, b | 0 <= a < b < |front + s|
        ensures Before((front + s)[a], (front + s)[b])
      {
        if b >= |front| && a < |front| {
          assert (front + s)[a] == front[a];
          SegAt(i - 1, i, n, b - |front|);
          assert (front + s)[b] == s[b - |front|];
        } else if a >= |front| {
          SegAt(i - 1, i, n, a - |front|);
          SegAt(i - 1, i, n, b - |front|);
        }
      }
    }
  }

  /** Each unordered pair {i, j} of distinct indices below n is examined
      exactly once in a sweep, as (min, max), and pairs come in row-by-row
      order. */
  lemma PairsExactlyOnce(n: nat)
    ensures forall p :: p in Pairs(n) <==> p.0 < p.1 < n
    ensures forall a, b :: 0 <= a < b < |Pairs(n)| ==> Before(Pairs(n)[a], Pairs(n)[b])
    ensures forall a, b :: 0 <= a < b < |Pairs(n)| ==> Pairs(n)[a] != Pairs(n)[b]
  {
    forall p
      ensures p in Pairs(n) <==> p.0 < p.1 < n
    {
      PrefixMembers(OuterBound(n), n, p);
    }
    PrefixSorted(OuterBound(n), n);
  }

  /** A sweep over n objects examines n * (n - 1) / 2 pairs. */
  lemma {:induction false} PrefixCount(i: nat, n: nat)
    requires i <= n
    ensures 2 * |Prefix(i, n)| == i * (2 * n - i - 1)
  {
    if i > 0 {
      PrefixCount(i - 1, n);
    }
  }

  lemma PairsCount(n: nat)
    ensures 2 * |Pairs(n)| == n * (n - 1)
  {
    PrefixCount(OuterBound(n), n);
  }

  /* ---------------------------------------------------------------- */
  /* The whole sweep                                                   */
  /* ---------------------------------------------------------------- */

  /** The pairs ps examined one after the other, from the first. */
  function Run(bs: seq<Body>, ps: seq<(nat, nat)>, bounce: Bounce): (r: seq<Body>)
    ensures |r| == |bs|
    decreases |ps|
  {
    if ps == [] then bs
    else Run(PairStep(bs, ps[0], bounce), ps[1..], bounce)
  }

  /** Examining a + b is examining a, then b. */
  lemma {:induction false} RunAppend(bs: seq<Body>, a: seq<(nat, nat)>, b: seq<(nat, nat)>, bounce: Bounce)
    ensures Run(bs, a + b, bounce) == Run(Run(bs, a, bounce), b, bounce)
    decreases |a|
  {
    if a == [] {
      assert a + b == b;
    } else {
      assert (a + b)[1..] == a[1..] + b;
      RunAppend(PairStep(bs, a[0], bounce), a[1..], b, bounce);
    }
  }

  /** Running one more pair is one more PairStep. */
  lemma RunSnoc(bs: seq<Body>, ps: seq<(nat, nat)>, p: (nat, nat), bounce: Bounce)
    ensures Run(bs, ps + [p], bounce) == PairStep(Run(bs, ps, bounce), p, bounce)
  {
    RunAppend(bs, ps, [p], bounce);
  }

  /** Running pairs never moves a tree, and writes only the latches of
      objects that are the first of some pair. */
  lemma {:induction false} RunFrame(bs: seq<Body>, ps: seq<(nat, nat)>, bounce: Bounce, k: nat)
    requires k < |bs|
    ensures Run(bs, ps, bounce)[k].tree == bs[k].tree
    ensures (forall m :: 0 <= m < |ps| ==> ps[m].0 != k) ==> Run(bs, ps, bounce)[k].colliding == bs[k].colliding
    decreases |ps|
  {
    if ps != [] {
      PairStepFrame(bs, ps[0], bounce, k);
      RunFrame(PairStep(bs, ps[0], bounce), ps[1..], bounce, k);
      if forall m :: 0 <= m < |ps| ==> ps[m].0 != k {
        assert forall m :: 0 <= m < |ps[1..]| ==> ps[1..][m] == ps[m + 1];
      }
    }
  }

  /** A sweep never moves a tree, and never writes the latch of the last
      object, which is never the first of a pair. */
  lemma SweepFrame(bs: seq<Body>, bounce: Bounce)
    ensures var r := Run(bs, Pairs(|bs|), bounce);
            |r| == |bs| && (forall k :: 0 <= k < |bs| ==> r[k].tree == bs[k].tree) &&
            (|bs| > 0 ==> r[|bs| - 1].colliding == bs[|bs| - 1].colliding)
  {
    var n, ps := |bs|, Pairs(|bs|);
    forall k | 0 <= k < n
      ensures Run(bs, ps, bounce)[k].tree == bs[k].tree
    {
      RunFrame(bs, ps, bounce, k);
    }
    if n > 0 {
      PrefixInRange(OuterBound(n), n);
      assert forall m :: 0 <= m < |ps| ==> ps[m].0 != n - 1;
      RunFrame(bs, ps, bounce, n - 1);
    }
  }


  /** The sweep as the loops compute it, row by row: RowRun examines
      (i, i + 1), ..., (i, j - 1) in bs. */
  function RowRun(bs: seq<Body>, i: nat, j: nat, bounce: Bounce): (r: seq<Body>)
    requires i < j <= |bs|
    ensures |r| == |bs|
    decreases j
  {
    if j == i + 1 then bs else PairStep(RowRun(bs, i, j - 1, bounce), (i, j - 1), bounce)
  }

  /** The first i rows of the sweep. */
  function SweepRows(bs: seq<Body>, i: nat, bounce: Bounce): (r: seq<Body>)
    requires i < |bs| || i == 0
    ensures |r| == |bs|
  {
    if i == 0 then bs else RowRun(SweepRows(bs, i - 1, bounce), i - 1, |bs|, bounce)
  }

  /** One whole sweep of checkCollisions over the bodies bs. */
  function Sweep(bs: seq<Body>, bounce: Bounce): (r: seq<Body>)
    ensures |r| == |bs|
  {
    SweepRows(bs, OuterBound(|bs|), bounce)
  }

  /** RowRun examines the pairs of the row Seg(i, i + 1, j). */
  lemma {:induction false} RowRunIsRun(bs: seq<Body>, i: nat, j: nat, bounce: Bounce)
    requires i < j <= |bs|
    ensures RowRun(bs, i, j, bounce) == Run(bs, Seg(i, i + 1, j), bounce)
    decreases j
  {
    if j > i + 1 {
      RowRunIsRun(bs, i, j - 1, bounce);
      RunSnoc(bs, Seg(i, i + 1, j - 1), (i, j - 1), bounce);
    }
  }

  /** One more row of the outer loop runs that row's pairs. */
  lemma SweepRowsStep(bs: seq<Body>, i: nat, prev: seq<Body>, bounce: Bounce)
    requires 0 < i < |bs| && prev == SweepRows(bs, i - 1, bounce)
    ensures SweepRows(bs, i, bounce) == Run(prev, Seg(i - 1, i, |bs|), bounce)
  {
    RowRunIsRun(prev, i - 1, |bs|, bounce);
  }

  /** The rows of the loops examine exactly the pairs of Prefix. */
  lemma {:induction false} SweepRowsIsRun(bs: seq<Body>, i: nat, bounce: Bounce)
    requires i < |bs| || i == 0
    ensures SweepRows(bs, i, bounce) == Run(bs, Prefix(i, |bs|), bounce)
  {
    if i > 0 {
      var before, row := Prefix(i - 1, |bs|), Seg(i - 1, i, |bs|);
      SweepRowsIsRun(bs, i - 1, bounce);
      SweepRowsStep(bs, i, Run(bs, before, bounce), bounce);
      RunAppend(bs, before, row, bounce);
      assert Prefix(i, |bs|) == before + row;
    }
  }

  /** The loops of checkCollisions compute Run over Pairs: every pair
      i < j once, in row-by-row order (PairsExactlyOnce). */
  lemma SweepIsRun(bs: seq<Body>, bounce: Bounce)
    ensures Sweep(bs, bounce) == Run(bs, Pairs(|bs|), bounce)
  {
    SweepRowsIsRun(bs, OuterBound(|bs|), bounce);
  }

  /** A scene in which nothing moves is left exactly as it was. */
  lemma {:induction false} RunStill(bs: seq<Body>, ps: seq<(nat, nat)>, bounce: Bounce)
    requires forall k :: 0 <= k < |bs| ==> !MovingVel(bs[k].vel)
    ensures Run(bs, ps, bounce) == bs
    decreases |ps|
  {
    if ps != [] {
      assert PairStep(bs, ps[0], bounce) == bs;
      RunStill(bs, ps[1..], bounce);
    }
  }

  /* ---------------------------------------------------------------- */
  /* What the latch achieves                                           */
  /* ---------------------------------------------------------------- */

  /** Examining a pair a second time, with nothing moved in between,
      changes nothing: a collision already answered is not answered again. */
  lemma PairOutcomeIdempotent(a: Body, b: Body, bounce: Bounce)
    ensures var r := PairOutcome(a, b, bounce);
            PairOutcome(r.0, r.1, bounce) == r
  {
  }

  /** With two objects a sweep examines the single pair (0, 1). */
  lemma TwoBodySweep(bs: seq<Body>, bounce: Bounce)
    requires |bs| == 2
    ensures Sweep(bs, bounce) == PairStep(bs, (0, 1), bounce)
  {
    assert OuterBound(2) == 1;
    assert SweepRows(bs, 1, bounce) == RowRun(bs, 0, 2, bounce);
  }

  /** In a two-object scene, such as the one reset builds, the latch does
      what it is for: a second sweep over unmoved trees changes nothing, so
      each collision is answered by one bounce. */
  lemma TwoBodySweepIdempotent(bs: seq<Body>, bounce: Bounce)
    requires |bs| == 2
    ensures Sweep(Sweep(bs, bounce), bounce) == Sweep(bs, bounce)
  {
    TwoBodySweep(bs, bounce);
    TwoBodySweep(Sweep(bs, bounce), bounce);
    PairOutcomeIdempotent(bs[0], bs[1], bounce);
  }

  /** With three objects a sweep examines (0, 1), (0, 2) and (1, 2). */
  lemma ThreeBodySweep(bs: seq<Body>, bounce: Bounce)
    requires |bs| == 3
    ensures Sweep(bs, bounce) == PairStep(PairStep(PairStep(bs, (0, 1), bounce), (0, 2), bounce), (1, 2), bounce)
  {
    var r1 := PairStep(PairStep(bs, (0, 1), bounce), (0, 2), bounce);
    assert OuterBound(3) == 2;
    assert RowRun(bs, 0, 3, bounce) == r1;
    assert SweepRows(bs, 1, bounce) == r1;
    assert SweepRows(bs, 2, bounce) == RowRun(r1, 1, 3, bounce);
  }

  /** A response that speeds the first object up along x. */
  function PushX(v: Vel, w: Vel): (Vel, Vel)
  {
    (Vel(v.x + 1.0, v.y, v.z), w)
  }

  /** Three objects: object 0 moves and already touches object 1 with its
      latch set; object 2 is far away. */
  function ThreeBodyScene(): seq<Body>
  {
    [Body(Vel(1.0, 0.0, 0.0), true, Leaf(MakeSphere(0.0, 0.0, 0.0, 1.0), true)),
     Body(Vel(0.0, 0.0, 0.0), false, Leaf(MakeSphere(0.0, 0.0, 0.0, 1.0), true)),
     Body(Vel(0.0, 0.0, 0.0), false, Leaf(MakeSphere(100.0, 0.0, 0.0, 1.0), true))]
  }

  /** With three or more objects the latch is shared by all pairs (i, j)
      of one i, so a miss against a later j clears it within the sweep:
      here the collision of objects 0 and 1, already latched and never
      separated, is answered again by the next sweep. */
  lemma SharedLatchRebounces()
    ensures CheckCol(ThreeBodyScene()[0].tree, ThreeBodyScene()[1].tree) && ThreeBodyScene()[0].colliding
    ensures Sweep(ThreeBodyScene(), PushX)[0] == ThreeBodyScene()[0].(colliding := false)
    ensures Sweep(Sweep(ThreeBodyScene(), PushX), PushX)[0].vel == Vel(2.0, 0.0, 0.0)
  {
    var bs := ThreeBodyScene();
    var s0, s1, s2 := bs[0].tree.value, bs[1].tree.value, bs[2].tree.value;
    assert Overlaps(s0, s1);
    assert !Overlaps(s0, s2) by {
      assert DistSq(s0, s2) == 10000.0;
    }
    ThreeBodySweep(bs, PushX);
    var r := Sweep(bs, PushX);
    assert r[0] == bs[0].(colliding := false);
    assert r[1] == bs[1] && r[2] == bs[2];
    ThreeBodySweep(r, PushX);
  }

  /* ---------------------------------------------------------------- */
  /* The bound of the outer loop as written                            */
  /* ---------------------------------------------------------------- */

  /** 2^64: objects.size() is an unsigned 64-bit size_t. */
  const SizeModulus: nat := 0x1_0000_0000_0000_0000

  /** The largest value of the loop counter's type, a 32-bit int. */
  const IntMax: nat := 0x7fff_ffff

  /** The outer bound as written, objects.size() - 1 computed in size_t. */
  function OuterBoundAsWritten(n: nat): (b: int)
    requires n < SizeModulus
    ensures 0 <= b < SizeModulus
  {
    (n - 1) % SizeModulus
  }

  /** For a non-empty scene the bound as written is the intended one. */
  lemma AsWrittenAgrees(n: nat)
    requires 0 < n < SizeModulus
    ensures OuterBoundAsWritten(n) == OuterBound(n)
  {
  }

  /** For an empty scene objects.size() - 1 wraps around to 2^64 - 1: every
      value the int counter can take is below it, so the outer loop cannot
      end before the counter overflows. */
  lemma EmptySceneBoundWraps()
    ensures OuterBoundAsWritten(0) == SizeModulus - 1
    ensures IntMax < OuterBoundAsWritten(0)
    ensures OuterBound(0) == 0 && Pairs(0) == []
  {
  }

  /* ---------------------------------------------------------------- */
  /* The objects on the heap                                           */
  /* ---------------------------------------------------------------- */

  /** The body of a heap object. */
  ghost function BodyOf(o: Object): (b: Body)
    reads o, o.Repr
    requires o.Valid()
    ensures MovingVel(b.vel) <==> o.Moving()
  {
    Body(VelOf(o), o.colliding, o.spaceTree.Model())
  }

  /** objects[i]->bounce(*objects[j]): both velocities are replaced by
      the response. */
  method ApplyBounce(a: Object, b: Object, bounce: Bounce)
    requires a != b
    modifies a`xSpeed, a`ySpeed, a`zSpeed, b`xSpeed, b`ySpeed, b`zSpeed
    ensures (VelOf(a), VelOf(b)) == bounce(old(VelOf(a)), old(VelOf(b)))
  {
    var v := bounce(VelOf(a), VelOf(b));
    a.SetVel(v.0.x, v.0.y, v.0.z);
    b.SetVel(v.1.x, v.1.y, v.1.z);
  }

  /** The velocity of a heap object. */
  function VelOf(o: Object): Vel
    reads o
  {
    Vel(o.xSpeed, o.ySpeed, o.zSpeed)
  }

  /** The body of the inner loop of checkCollisions on two distinct
      objects a (objects[i]) and b (objects[j]). */
  method CheckPair(a: Object, b: Object, bounce: Bounce)
    requires a.Valid() && b.Valid() && a != b && a !in b.Repr && b !in a.Repr
    modifies a`colliding, a`xSpeed, a`ySpeed, a`zSpeed, b`xSpeed, b`ySpeed, b`zSpeed
    ensures a.Valid() && b.Valid()
    ensures (BodyOf(a), BodyOf(b)) == PairOutcome(old(BodyOf(a)), old(BodyOf(b)), bounce)
  {
    ghost var a0, b0 := BodyOf(a), BodyOf(b);
    if a.Moving() || b.Moving() {
      var hit := a.CheckCollision(b);
      Respond(a, b, hit, bounce);
      assert BodyOf(a) == Body(VelOf(a), a.colliding, a0.tree);
      assert BodyOf(b) == Body(VelOf(b), b0.colliding, b0.tree);
    }
    OutcomeFromFields(a0, b0, VelOf(a), VelOf(b), a.colliding, bounce);
  }

  /** The latch of a answering the result hit of the collision query: the
      onset of a collision sets it and bounces once, a held collision
      changes nothing and a miss clears it.  Only the latch and the
      velocities are written; the trees stay as they are. */
  method Respond(a: Object, b: Object, hit: bool, bounce: Bounce)
    requires a.Valid() && b.Valid() && a != b && a !in b.Repr && b !in a.Repr
    modifies a`colliding, a`xSpeed, a`ySpeed, a`zSpeed, b`xSpeed, b`ySpeed, b`zSpeed
    ensures a.Valid() && b.Valid()
    ensures a.spaceTree.Model() == old(a.spaceTree.Model()) && b.spaceTree.Model() == old(b.spaceTree.Model())
    ensures a.colliding == hit
    ensures if hit && !old(a.colliding) then (VelOf(a), VelOf(b)) == bounce(old(VelOf(a)), old(VelOf(b)))
            else VelOf(a) == old(VelOf(a)) && VelOf(b) == old(VelOf(b))
  {
    if hit {
      if !a.colliding {
        a.colliding := true;
        ApplyBounce(a, b, bounce);
      }
    } else {
      a.colliding := false;
    }
  }

  /** The outcome of a pair in terms of the new velocities va, vb and the
      new latch ca of the first object. */
  lemma OutcomeFromFields(a0: Body, b0: Body, va: Vel, vb: Vel, ca: bool, bounce: Bounce)
    requires !MovingVel(a0.vel) && !MovingVel(b0.vel) ==> va == a0.vel && vb == b0.vel && ca == a0.colliding
    requires MovingVel(a0.vel) || MovingVel(b0.vel) ==>
               ca == CheckCol(a0.tree, b0.tree) &&
               if ca && !a0.colliding then (va, vb) == bounce(a0.vel, b0.vel) else va == a0.vel && vb == b0.vel
    ensures (Body(va, ca, a0.tree), Body(vb, b0.colliding, b0.tree)) == PairOutcome(a0, b0, bounce)
  {
  }

  /** The key that ends the program (Escape). */
  const EscKey: char := 27 as char

  /** The depth counter after one key: 'w' or 'W' raises it while it is
      below 4, 'q' or 'Q' lowers it while it is above 0. */
  function DepthAfter(key: char, d: int): (d': int)
    ensures 0 <= d <= 4 ==> 0 <= d' <= 4
    ensures d' == d || d' == d + 1 || d' == d - 1
  {
    if (key == 'w' || key == 'W') && d < 4 then d + 1
    else if (key == 'q' || key == 'Q') && d > 0 then d - 1
    else d
  }

  /** The depth counter after a sequence of keys. */
  function DepthAfterKeys(d: int, keys: seq<char>): int
    decreases |keys|
  {
    if keys == [] then d else DepthAfterKeys(DepthAfter(keys[0], d), keys[1..])
  }

  /** From any depth in [0, 4], and in particular from the initial depth 1,
      no sequence of keys takes the depth outside [0, 4]. */
  lemma {:induction false} DepthStaysInRange(d: int, keys: seq<char>)
    requires 0 <= d <= 4
    ensures 0 <= DepthAfterKeys(d, keys) <= 4
    decreases |keys|
  {
    if keys != [] {
      DepthStaysInRange(DepthAfter(keys[0], d), keys[1..]);
    }
  }

  /** 'm'/'M' and 'p'/'P' flip their flag; any other key leaves it. */
  function Toggled(key: char, lower: char, upper: char, flag: bool): (f: bool)
    ensures f != flag <==> key == lower || key == upper
  {
    if key == lower || key == upper then !flag else flag
  }

  /** The scene reset leaves: a unit sphere at (2, 0, 8) moving along -x
      towards a cube of half-side 1 at rest at (-2, 0, 8), whose tree has
      the given depth; R is the cube's half-diagonal, the square root of 3. */
  function ResetBodies(depth: int, R: real): seq<Body>
  {
    [Body(Vel(-1.0, 0.0, 0.0), false, Leaf(MakeSphere(2.0, 0.0, 8.0, 1.0), true)),
     Body(Vel(0.0, 0.0, 0.0), false, CubeTree(-2.0, 0.0, 8.0, 1.0, R, depth))]
  }

  /** The first sweep after a reset examines the one pair of the scene:
      the sphere moves, so the latch of the sphere then says whether the
      sphere's tree and the cube's tree collide, and the cube's latch stays
      clear. */
  lemma ResetPairExamined(depth: int, R: real, bounce: Bounce)
    ensures |Sweep(ResetBodies(depth, R), bounce)| == 2
    ensures Sweep(ResetBodies(depth, R), bounce)[0].colliding ==
              CheckCol(Leaf(MakeSphere(2.0, 0.0, 8.0, 1.0), true), CubeTree(-2.0, 0.0, 8.0, 1.0, R, depth))
    ensures !Sweep(ResetBodies(depth, R), bounce)[1].colliding
  {
    var bs := ResetBodies(depth, R);
    assert MovingVel(bs[0].vel);
    assert OuterBound(2) == 1;
    assert SweepRows(bs, 0, bounce) == bs;
    assert SweepRows(bs, 1, bounce) == RowRun(bs, 0, 2, bounce);
    assert RowRun(bs, 0, 1, bounce) == bs;
    assert RowRun(bs, 0, 2, bounce) == PairStep(bs, (0, 1), bounce);
  }

  /** The first sweep after a reset: the sphere's latch is set exactly
      when the sphere overlaps a leaf sphere of the cube, and since the two
      objects start 4 apart, further than 1 + R, it stays clear. */
  lemma ResetFirstSweep(depth: int, R: real, bounce: Bounce)
    requires R >= 0.0 && R * R == 3.0
    ensures Sweep(ResetBodies(depth, R), bounce)[0].colliding <==>
            exists l :: l in Leaves(CubeTree(-2.0, 0.0, 8.0, 1.0, R, depth)) && Overlaps(MakeSphere(2.0, 0.0, 8.0, 1.0), l.value)
    ensures !Sweep(ResetBodies(depth, R), bounce)[0].colliding
  {
    var s, c := MakeSphere(2.0, 0.0, 8.0, 1.0), CubeTree(-2.0, 0.0, 8.0, 1.0, R, depth);
    ResetPairExamined(depth, R, bounce);
    SphereAgainstCube(s, -2.0, 0.0, 8.0, 1.0, R, depth);
    assert DistSq(s, c.value) == 16.0;
    assert (s.r + c.value.r) * (s.r + c.value.r) == 4.0 + 2.0 * R;
    assert !Overlaps(s, c.value);
  }

  /** setVel on a valid object: the velocity of its body is replaced and
      the latch and the tree stay. */
  method SetBodyVel(o: Object, v: Vel)
    requires o.Valid()
    modifies o`xSpeed, o`ySpeed, o`zSpeed
    ensures o.Valid() && BodyOf(o) == old(BodyOf(o)).(vel := v)
  {
    o.SetVel(v.x, v.y, v.z);
  }

  /** The two objects reset creates, both at rest: a sphere and a cube
      that own disjoint trees. */
  method NewResetObjects(depth: int, R: real) returns (s: Object, c: Object)
    requires R >= 0.0 && R * R == 3.0
    ensures fresh(s) && fresh(c) && fresh(s.Repr) && fresh(c.Repr)
    ensures s.Valid() && c.Valid() && s != c && s.Repr !! c.Repr && s !in c.Repr && c !in s.Repr
    ensures BodyOf(s) == Body(Vel(0.0, 0.0, 0.0), false, ResetBodies(depth, R)[0].tree)
    ensures BodyOf(c) == ResetBodies(depth, R)[1]
  {
    s := new Object.Sphere(2.0, 0.0, 8.0, 1.0);
    c := new Object.Cube(-2.0, 0.0, 8.0, 1.0, R, depth);
  }

  /** A sequence without repetitions has as many distinct elements as
      entries. */
  lemma {:induction false} DistinctCount<T>(xs: seq<T>)
    requires forall k, l :: 0 <= k < l < |xs| ==> xs[k] != xs[l]
    ensures |set x | x in xs| == |xs|
  {
    if xs != [] {
      DistinctCount(xs[1..]);
      assert (set x | x in xs) == {xs[0]} + (set x | x in xs[1..]);
    }
  }

  /** The global state of collision.cpp that the model keeps: the objects
      and the three settings the keyboard changes. */
  class Scene {
    var objects: seq<Object>
    var drawSolid: bool
    var sphereTreeDepth: int
    var pause: bool

    /** The objects of the scene, as a set. */
    ghost var Objs: set<Object>

    /** Every node and array of the objects' trees. */
    ghost var Nodes: set<object>

    /** Every object is in Objs, and Objs has no more members than there
        are objects, so Objs is exactly the set of the objects
        (ObjsAreObjects); every object is valid and owns its tree alone: no
        two entries are the same object, no object is a node of a tree and
        no two trees share a node, and the scene itself is no node.  Only
        the fields spaceTree and Repr of the objects are read, so the
        sweep, which writes latches and velocities, keeps the scene
        valid. */
    ghost predicate Valid()
      reads this`objects, this`Objs, this`Nodes, Objs`spaceTree, Objs`Repr, Nodes
    {
      this !in Nodes &&
      |Objs| == |objects| &&
      (forall k :: 0 <= k < |objects| ==>
         objects[k] in Objs && objects[k].Repr <= Nodes && objects[k] !in Nodes && objects[k].Valid()) &&
      (forall k, l :: 0 <= k < |objects| && 0 <= l < |objects| && k != l ==>
         objects[k] != objects[l] && objects[k].Repr !! objects[l].Repr)
    }

    /** In a valid scene Objs is the set of the objects and nothing else,
        so the sweep's frame holds no object outside the scene. */
    lemma ObjsAreObjects()
      requires Valid()
      ensures Objs == set o | o in objects
    {
      var inScene := set o | o in objects;
      DistinctCount(objects);
      assert inScene <= Objs;
      assert |Objs - inScene| == 0;
    }

    /** The bodies of the objects, in order. */
    ghost function Bodies(): (bs: seq<Body>)
      reads this, Objs, Nodes
      requires Valid()
      ensures |bs| == |objects|
      ensures forall k :: 0 <= k < |objects| ==> bs[k] == BodyOf(objects[k])
    {
      BodiesUpTo(|objects|)
    }

    /** The bodies of the first n objects. */
    ghost function BodiesUpTo(n: nat): (bs: seq<Body>)
      reads this, Objs, Nodes
      requires Valid() && n <= |objects|
      ensures |bs| == n
      ensures forall k :: 0 <= k < n ==> bs[k] == BodyOf(objects[k])
    {
      if n == 0 then [] else BodiesUpTo(n - 1) + [BodyOf(objects[n - 1])]
    }

    /** init: depth 1, solid drawing, not paused, then reset. */
    constructor Init(R: real)
      requires R >= 0.0 && R * R == 3.0
      ensures sphereTreeDepth == 1 && drawSolid && !pause
      ensures Valid() && Bodies() == ResetBodies(1, R)
      ensures Objs == {objects[0], objects[1]} && fresh(Objs) && fresh(Nodes)
    {
      sphereTreeDepth := 1;
      drawSolid := true;
      pause := false;
      objects := [];
      Objs := {};
      Nodes := {};
      new;
      Reset(R);
    }

    /** reset: the scene becomes a fresh sphere and a fresh cube (whose
        tree has the current depth), and the sphere is set moving; the
        settings stay as they are. */
    method Reset(R: real)
      requires R >= 0.0 && R * R == 3.0
      modifies this`objects, this`Objs, this`Nodes
      ensures Valid() && Bodies() == ResetBodies(sphereTreeDepth, R)
      ensures Objs == {objects[0], objects[1]} && fresh(Objs) && fresh(Nodes)
    {
      var s, c := NewResetObjects(sphereTreeDepth, R);
      objects := [s, c];
      Objs := {s, c};
      Nodes := s.Repr + c.Repr;
      PairValid(s, c);
      SetBodyVel(objects[0], Vel(-1.0, 0.0, 0.0));
      PairBodies(s, c, ResetBodies(sphereTreeDepth, R));
    }

    /** A scene of two valid objects owning disjoint trees is valid. */
    lemma PairValid(s: Object, c: Object)
      requires objects == [s, c] && Objs == {s, c} && Nodes == s.Repr + c.Repr && this !in Nodes
      requires s.Valid() && c.Valid() && s != c && s.Repr !! c.Repr && s !in c.Repr && c !in s.Repr
      ensures Valid()
    {
    }

    /** The bodies of a valid scene of two objects. */
    lemma PairBodies(s: Object, c: Object, bs: seq<Body>)
      requires Valid() && objects == [s, c] && s.Valid() && c.Valid()
      requires |bs| == 2 && BodyOf(s) == bs[0] && BodyOf(c) == bs[1]
      ensures Bodies() == bs
    {
      assert BodiesUpTo(1) == [BodyOf(s)];
    }

    /** myKeyboard: Escape asks to quit and changes nothing; 'w'/'W' and
        'q'/'Q' move the depth within [0, 4]; 'm'/'M' flips solid drawing;
        'p'/'P' flips the pause; the space bar resets the scene at the
        current depth; any other key changes nothing. */
    method Keyboard(key: char, R: real) returns (quit: bool)
      requires Valid() && R >= 0.0 && R * R == 3.0
      modifies this
      ensures quit <==> key == EscKey
      ensures sphereTreeDepth == DepthAfter(key, old(sphereTreeDepth))
      ensures drawSolid == Toggled(key, 'm', 'M', old(drawSolid))
      ensures pause == Toggled(key, 'p', 'P', old(pause))
      ensures Valid()
      ensures key == ' ' ==> Bodies() == ResetBodies(sphereTreeDepth, R) &&
                             Objs == {objects[0], objects[1]} && fresh(Objs) && fresh(Nodes)
      ensures key != ' ' ==> objects == old(objects) && Objs == old(Objs) && Nodes == old(Nodes) &&
                             unchanged(Objs) && unchanged(Nodes)
    {
      quit := false;
      if key == 'm' || key == 'M' {
        drawSolid := !drawSolid;
      } else if key == ' ' {
        Reset(R);
      } else if key == EscKey {
        quit := true;
      } else if key == 'w' || key == 'W' {
        if sphereTreeDepth < 4 {
          sphereTreeDepth := sphereTreeDepth + 1;
        }
      } else if key == 'q' || key == 'Q' {
        if sphereTreeDepth > 0 {
          sphereTreeDepth := sphereTreeDepth - 1;
        }
      } else if key == 'p' || key == 'P' {
        pause := !pause;
      }
    }

    /** checkCollisions: every pair (i, j), i < j, is examined in row-by-row
        order by CheckPair; the result is Sweep, which SweepIsRun shows to
        be Run over Pairs.  Only latches and velocities are written.  The
        outer loop runs over all indices but the last, and over none for an
        empty scene (see OuterBoundAsWritten for the bound as written). */
    method CheckCollisions(bounce: Bounce)
      requires Valid()
      modifies Objs`colliding, Objs`xSpeed, Objs`ySpeed, Objs`zSpeed
      ensures Valid()
      ensures Bodies() == Sweep(old(Bodies()), bounce)
    {
      var n := |objects|;
      var bound := if n == 0 then 0 else n - 1;
      ghost var b0 := Bodies();
      for i := 0 to bound
        invariant Valid() && Bodies() == SweepRows(b0, i, bounce)
      {
        CheckRow(i, bounce);
      }
    }

    /** One pass of the inner loop: objects[i] against every later object,
        in order. */
    method CheckRow(i: nat, bounce: Bounce)
      requires Valid() && i < |objects|
      modifies Objs`colliding, Objs`xSpeed, Objs`ySpeed, Objs`zSpeed
      ensures Valid()
      ensures Bodies() == RowRun(old(Bodies()), i, |objects|, bounce)
    {
      ghost var start := Bodies();
      var j := i + 1;
      while j < |objects|
        invariant i < j <= |objects|
        invariant Valid() && Bodies() == RowRun(start, i, j, bounce)
      {
        CheckNext(i, j, start, bounce);
        j := j + 1;
      }
    }

    /** The pair (i, j) as the next step of row i. */
    method CheckNext(i: nat, j: nat, ghost start: seq<Body>, bounce: Bounce)
      requires Valid() && i < j < |objects| && |start| == |objects|
      requires Bodies() == RowRun(start, i, j, bounce)
      modifies Objs`colliding, Objs`xSpeed, Objs`ySpeed, Objs`zSpeed
      ensures Valid()
      ensures Bodies() == RowRun(start, i, j + 1, bounce)
    {
      ghost var before := Bodies();
      CheckPairAt(i, j, bounce);
      assert Bodies() == PairStep(before, (i, j), bounce);
    }

    /** The pair (i, j) of the sweep on the heap. */
    method CheckPairAt(i: nat, j: nat, bounce: Bounce)
      requires Valid() && i < j < |objects|
      modifies Objs`colliding, Objs`xSpeed, Objs`ySpeed, Objs`zSpeed
      ensures Valid()
      ensures Bodies() == PairStep(old(Bodies()), (i, j), bounce)
    {
      ghost var bs := Bodies();
      CheckPair(objects[i], objects[j], bounce);
      assert Bodies() == PairStep(bs, (i, j), bounce);
    }
  }
}
