# sphere_tree in Dafny

A model of the sphere-tree collision demonstration `sphere_tree`. Each
object of the scene stands for its volume by a tree of bounding spheres,
an octree in which every interior node owns exactly eight children. Two
objects collide when the dual-tree query finds an occupied leaf of the
first tree and a leaf of the second whose spheres overlap. Moving an
object translates every sphere of its tree in place. For occupied trees
whose every sphere contains its children's spheres, as the cube trees'
do, the query is exact: it reports a hit exactly when such a pair of
leaves exists. The scene sweeps all pairs of objects and keeps one
`colliding` latch per object, written by every pair that object opens.
In the two-object scene that `reset` builds, the latch makes each
collision answer with one bounce only (`TwoBodySweepIdempotent`). With
three or more objects the pairs (i, j) share the latch of object i, so a
later miss clears it and the colliding pair is bounced again on the next
sweep (`SharedLatchRebounces`).

The project has five modules, one per file:

- `treesphere.dfy` (`TreeSpheres`): the sphere record and the overlap
  test.
- `octree.dfy` (`Octree`): the octree node as a heap class
  (`OctreeNode`) and its value (`Tree`). The class has an ownership
  invariant: a node is a leaf or owns eight children exclusively.
- `sphere_tree.dfy` (`SphereTree`): the algorithms stated on tree values.
  These are the collision query `CheckCol`, translation `Translate`, the
  cube tree `CubeTree` and the drawn spheres `OccupiedLeaves`, together
  with their properties.
- `objects.dfy` (`Objects`): the heap algorithms, each proved to compute
  the matching value function. These are `updateSphereNode`,
  `buildTree`, `checkColRecursive` and `drawRecurse`, plus the class
  `Object` with its constructors, `checkCollision`, `setVel` and
  `update`.
- `collision.dfy` (`Collision`): the scene of `collision.cpp`.
  - The sweep `checkCollisions` is specified on values. `PairOutcome` is
    one examined pair, `Pairs(n)` is the order in which pairs are
    examined, and `Run` is the whole sweep.
  - The class `Scene` holds the objects and the three settings. It has
    `Init`, `Reset`, `Keyboard` and `CheckCollisions`.

Coordinates, radii and velocities are `real`. The test
`getMagnitude(dx, dy, dz) <= r1 + r2` becomes the squared comparison in
`Overlaps`. `OverlapsIsDistanceTest` proves that the two agree for every
non-negative square root. The cube's circumscribing radius
`getMagnitude(h, h, h)` is a parameter `R`, constrained by `R >= 0` and
`R * R == 3 * h * h`.

`getVel() != 0` becomes "some velocity component is non-zero"
(`Object.Moving`, `MovingVel`), which is equivalent over the reals.

The collision response `Object::bounce` is a parameter `bounce` of type
`(Vel, Vel) -> (Vel, Vel)`, and nothing is assumed about it.

## Model

| member | source | states |
|---|---|---|
| TreeSpheres.DefaultSphere | lib/treesphere.h:9 | the default sphere has its centre at the origin and radius 0 |
| TreeSpheres.CopySphere | lib/treesphere.h:10 | the copy has all four fields of the original |
| TreeSpheres.MakeSphere | lib/treesphere.h:11 | the first three arguments become the centre and the fourth the radius, although the record stores the radius first |
| TreeSpheres.Shift | lib/object_w_tree.h:73-75 | moving a sphere changes the centre by exactly the delta and keeps the radius |
| TreeSpheres.DistSq | lib/object_w_tree.h:38-41 | the squared distance between the two centres, the square of what getMagnitude(dx, dy, dz) returns; OverlapsIsDistanceTest relates the two |
| TreeSpheres.Overlaps | lib/object_w_tree.h:38-44 | the test `dist <= r1 + r2`, as a squared comparison with a non-negative radius sum; OverlapsIsDistanceTest proves it equal to the distance test |
| TreeSpheres.OverlapsIsDistanceTest | lib/object_w_tree.h:38-44 | for any non-negative dist whose square is the squared centre distance, `dist <= r1 + r2` holds exactly when Overlaps does |
| TreeSpheres.OverlapsSymmetric | lib/object_w_tree.h:38-44 | the overlap test does not depend on the order of the two spheres |
| TreeSpheres.CoincidentCentresOverlap | lib/object_w_tree.h:38-44 | spheres with the same centre overlap exactly when their radii sum to a non-negative value |
| TreeSpheres.OverlapsTranslationInvariant | lib/object_w_tree.h:38-44 | shifting both spheres by the same delta keeps the verdict |
| TreeSpheres.DotBound | lib/object_w_tree.h:38-44 | Cauchy-Schwarz in three dimensions: the dot product of two offsets is at most the product of bounds on their lengths |
| TreeSpheres.OverlapThroughContainment | lib/object_w_tree.h:44 | a sphere that overlaps a sphere contained in p also overlaps p, which is why the pruning test at a parent loses no hit below it |
| Octree.OctreeNode.Model | lib/octree.h:9-13 | the value of a valid node is well formed (a leaf or exactly eight children), carries the node's sphere and flag, and is a leaf exactly when there is no child array |
| Octree.OctreeNode.Empty | lib/octree.h:13-17 | the default node is a valid unoccupied leaf holding the default sphere, and owns only fresh objects |
| Octree.OctreeNode.constructor | lib/octree.h:19-27 | stores the sphere and flag unchanged; node type 0 gives a valid leaf; any other node type gives a fresh array of exactly eight null slots |
| Octree.OctreeNode.SetValue | lib/octree.h:29-31 | a write through getValue's reference replaces this node's sphere only; shape, flags and every other sphere stay |
| Octree.OctreeNode.GetValue | lib/octree.h:33-35 | the const accessor returns the node's stored sphere |
| Octree.OctreeNode.Owned | lib/octree.h:9-13 | the node's share of the ownership invariant: a leaf, or eight filled slots owned exclusively, pairwise disjoint and not reaching back to the node or its array |
| Octree.OctreeNode.Valid | lib/octree.h:37-41 | every node of the subtree is Owned, so the destructor's walk over eight children of every interior node visits each node once |
| SphereTree.CheckCol | lib/object_w_tree.h:33-63 | a positive verdict implies that the root spheres overlap and the first root is occupied; for two leaves the verdict is exactly that |
| SphereTree.CheckColDescent | lib/object_w_tree.h:44-58 | past the pruning test, two leaves collide; otherwise the verdict is the disjunction over t2's eight children, t1's eight children, or all 64 pairs, by which side has children |
| SphereTree.CheckColBySlices | lib/object_w_tree.h:46-58 | past the pruning test, the verdict is the disjunction of the eight iterations of the loop over i |
| SphereTree.CheckColSound | lib/object_w_tree.h:33-63 | a positive verdict is witnessed by an occupied leaf of the first tree and a leaf of the second whose spheres overlap; CheckColComplete is the converse |
| SphereTree.CheckColIgnoresSecondFlags | lib/object_w_tree.h:44 | the query never consults the second tree's occupancy flags: any setting of them gives the same verdict |
| SphereTree.CheckColTranslationInvariant | lib/object_w_tree.h:33-80 | translating both trees by the same delta keeps the verdict |
| SphereTree.NestedIsBounding | lib/object_w_tree.h:196-221 | a tree whose children lie inside their parents with half the radius is a bounding tree: every child sphere lies inside its parent's |
| SphereTree.OverlapReachesRoot | lib/object_w_tree.h:44 | in a bounding tree, a sphere that overlaps some leaf overlaps the root, so the pruning test at the root cannot reject it |
| SphereTree.CheckColComplete | lib/object_w_tree.h:33-63 | when every node of the first tree is occupied and both trees are bounding, an overlapping pair of leaves makes the query report a hit |
| SphereTree.CheckColExact | lib/object_w_tree.h:33-63 | under the same conditions, the query reports a hit exactly when some leaf of the first tree overlaps some leaf of the second |
| SphereTree.Translate | lib/object_w_tree.h:71-80 | the root sphere is shifted by the delta; its flag, leaf-ness and number of children are kept |
| SphereTree.TranslateKeepsShape | lib/object_w_tree.h:71-80 | translation changes centres only: erasing centres gives the same tree, and well-formedness is kept |
| SphereTree.TranslateCompose | lib/object_w_tree.h:71-80 | two translations equal one translation by the summed delta |
| SphereTree.TranslateZero | lib/object_w_tree.h:71-80 | the zero delta changes nothing |
| SphereTree.TranslateRoundTrip | lib/object_w_tree.h:71-80 | translating by a delta and then by its negation restores the tree exactly |
| SphereTree.OccupiedLeaves | lib/object_w_tree.h:114-121 | the spheres drawRecurse draws, in visiting order: an occupied leaf draws its sphere, an interior node only walks its children in slot order; OccupiedLeavesExact characterises it |
| SphereTree.OccupiedLeavesExact | lib/object_w_tree.h:114-121 | a sphere is drawn exactly when it is the sphere of an occupied leaf |
| SphereTree.InteriorNotDrawn | lib/object_w_tree.h:114-121 | every drawn sphere belongs to a leaf; an interior node is drawn only through an occupied leaf with the same sphere |
| SphereTree.AllOccupiedAllDrawn | lib/object_w_tree.h:114-121 | when every node is occupied, one sphere is drawn per leaf |
| SphereTree.CubeNode | lib/object_w_tree.h:196-221 | a cube node is occupied, holds the sphere at its centre, and is a leaf exactly when no levels remain |
| SphereTree.CubeKids | lib/object_w_tree.h:207-214 | buildTree creates exactly eight children |
| SphereTree.CubeKidAt | lib/object_w_tree.h:202-214 | child k is offset by half the half-side along each axis, in the direction of bits 0, 1 and 2 of k, and has half the radius |
| SphereTree.CubeKidsSpheres | lib/object_w_tree.h:207-214 | the eight children's spheres, slot by slot, as the eight creation statements list them; all occupied; leaves exactly at the last level |
| SphereTree.CubeKidUnfold | lib/object_w_tree.h:216-220 | with levels remaining, each child is an occupied interior node whose own children are built from its centre with half the half-side and radius |
| SphereTree.CubeTree | lib/object_w_tree.h:178-186 | a depth of at most 0 gives one occupied leaf with the circumscribing sphere; depth 1 or more gives an occupied interior root with that sphere |
| SphereTree.CubeNodeShape | lib/object_w_tree.h:196-221 | a cube node is well formed, complete to its depth and occupied everywhere |
| SphereTree.CubeTreeShape | lib/object_w_tree.h:178-221 | the cube tree of depth d has 8^d leaves, (8^d - 1) / 7 interior nodes and 8^d drawn spheres |
| SphereTree.CubeChildTangent | lib/object_w_tree.h:202-214 | when the radius is the half-diagonal, each child sphere lies inside its parent and touches it from inside |
| SphereTree.HalvingKeepsDiagonal | lib/object_w_tree.h:202-203 | halving the half-side and the radius together keeps the radius equal to the half-diagonal |
| SphereTree.CubeNodeNested | lib/object_w_tree.h:196-221 | in a cube tree every child has half its parent's radius and lies inside its parent |
| SphereTree.CubeKidTangent | lib/object_w_tree.h:202-214 | each child of a cube node has half the node's radius and is internally tangent to it |
| SphereTree.CubeKidNested | lib/object_w_tree.h:216-220 | each child of a cube node is nested itself |
| SphereTree.CubeLeafRadius | lib/object_w_tree.h:178-221 | every leaf of a cube tree of depth d has radius R / 2^d |
| SphereTree.CubeTreeBounding | lib/object_w_tree.h:178-221 | the cube tree is a bounding tree at every depth |
| SphereTree.SphereAgainstCube | lib/object_w_tree.h:178-221 | an occupied sphere collides with a cube tree exactly when it overlaps one of the cube tree's leaves |
| Objects.UpdateSphereNode | lib/object_w_tree.h:71-80 | in place, the tree becomes Translate of its old value, keeping its validity and its footprint |
| Objects.UpdateChild | lib/object_w_tree.h:77-79 | one loop iteration translates the subtree in slot i and leaves the other seven subtrees unchanged |
| Objects.BuildTree | lib/object_w_tree.h:196-222 | fills the eight empty slots, so the node's value becomes Node over CubeKids of its own centre; the node stays valid and owns only fresh nodes |
| Objects.BuildBelow | lib/object_w_tree.h:216-220 | the second loop builds the levels below all eight freshly created children |
| Objects.PlaceChildren | lib/object_w_tree.h:198-214 | node type 0 exactly at the last level; the eight creation statements put into each slot a fresh node whose sphere is that of the matching child in CubeKids |
| Objects.PlaceSpheres | lib/object_w_tree.h:207-214 | the eight creation statements fill the slots with fresh occupied nodes holding the listed spheres |
| Objects.PlaceLayer | lib/object_w_tree.h:207-214 | four creation statements at one height fill four further slots |
| Objects.PlaceChild | lib/object_w_tree.h:207-214 | one creation statement fills slot k with a fresh node of the given type and sphere |
| Objects.BuildChild | lib/object_w_tree.h:218-220 | one iteration of the second loop builds the levels below slot i and leaves the other slots as they were |
| Objects.CheckColRecursive | lib/object_w_tree.h:33-63 | the heap query returns exactly CheckCol of the two trees' values |
| Objects.CheckColSlice | lib/object_w_tree.h:46-58 | iteration i of the loop returns exactly that iteration's part of the verdict |
| Objects.CheckColLoop | lib/object_w_tree.h:46-58 | the loop over i returns a hit exactly when one of the eight iterations does, stopping at the first |
| Objects.CheckColRow | lib/object_w_tree.h:54-56 | the inner loop over j returns a hit exactly when one of t2's children collides with the fixed child of t1 |
| Objects.CheckColKid | lib/object_w_tree.h:55 | one inner recursive call returns exactly CheckCol of the child of t1 and child j of t2 |
| Objects.DrawRecurse | lib/object_w_tree.h:114-121 | the spheres handed to draw are exactly OccupiedLeaves of the tree, in slot order |
| Objects.TreeFollowsPosition | lib/object_w_tree.h:131-143 | whether or not update translates the tree, the tree moves by exactly the position change, so a tree centred on the old position ends centred on the new one |
| Objects.Object.Sphere | lib/object_w_tree.h:159-162 | a Sphere is an object at rest at (x, y, z), with zero acceleration and a clear latch, whose tree is one occupied leaf of radius r there |
| Objects.Object.Cube | lib/object_w_tree.h:178-186 | a Cube is an object at rest at (x, y, z), with zero acceleration and a clear latch, whose tree is CubeTree of the requested depth |
| Objects.Object.CheckCollision | lib/object_w_tree.h:28-30 | returns CheckCol of the two objects' trees; a hit is witnessed by overlapping leaves; for an occupied first tree and two bounding trees, the answer is exactly whether such leaves exist |
| Objects.Object.DrawSphereTree | lib/object_w_tree.h:109-111 | the drawn spheres are the occupied leaves of the object's tree |
| Objects.Object.SetVel | lib/object_w_tree.h:124-128 | replaces the three velocity components and nothing else |
| Objects.Object.Update | lib/object_w_tree.h:131-143 | velocity gains acceleration times the elapsed time, and position gains the new velocity times the elapsed time; the tree is translated by that step exactly when some velocity component is non-zero |
| Objects.Object.ShiftIfMoving | lib/object_w_tree.h:140-142 | translates the tree by the velocity step when moving, and leaves it otherwise |
| Objects.Object.Moving | lib/object_w_tree.h:66-68 | `getVel() != 0`: some velocity component is non-zero, which over the reals is the magnitude being non-zero |
| Collision.PairOutcome | collision.cpp:149-157 | a pair where neither object moves is left alone; only the first object's latch is written; no tree changes; after an examined pair, the first latch says whether the trees collide; whenever the outcome differs from the input, the latch has changed |
| Collision.MovingVel | lib/object_w_tree.h:66-68 | the test `getVel() != 0` of collision.cpp:149 on a velocity: some component is non-zero, which over the reals is the magnitude being non-zero |
| Collision.PairOnset | collision.cpp:150-155 | a hit with a clear latch sets the latch and gives both objects the velocities of one application of bounce |
| Collision.PairMiss | collision.cpp:157 | a miss clears the first latch and changes nothing else |
| Collision.PairOutcomeIdempotent | collision.cpp:150-157 | examining the same two bodies again gives the same outcome: once the latch records a hit, a still-colliding pair is not bounced twice |
| Collision.PairStep | collision.cpp:149-157 | pair (i, j) of the bodies is replaced by PairOutcome of the two, every other body stays, and the length is kept (PairStepFrame) |
| Collision.PairStepFrame | collision.cpp:149-157 | examining pair (i, j) moves no tree, writes no latch but that of objects[i], and touches no object outside the pair |
| Collision.OuterBound | collision.cpp:146 | the outer loop covers every index but the last, and none for an empty scene |
| Collision.Pairs | collision.cpp:146-147 | the pairs the two loops visit, row by row; PairsExactlyOnce and PairsCount characterise them |
| Collision.PrefixMembers | collision.cpp:146-147 | the first i rows examine exactly the pairs (r, c) with r < i and r < c < n |
| Collision.PrefixSorted | collision.cpp:146-147 | the pairs of the first i rows come in strictly increasing row-by-row order |
| Collision.PairsExactlyOnce | collision.cpp:146-147 | a sweep examines exactly the pairs i < j < n, in row-by-row order, none twice |
| Collision.PairsCount | collision.cpp:146-147 | a sweep over n objects examines n(n-1)/2 pairs |
| Collision.Run | collision.cpp:146-160 | the pairs examined one after the other, from the first, keeping the number of bodies |
| Collision.RowRun | collision.cpp:147-159 | the inner loop over j for fixed i, keeping the number of bodies; RowRunIsRun equates it with Run over the row's pairs |
| Collision.SweepRows | collision.cpp:146-160 | the first i passes of the outer loop, keeping the number of bodies; SweepRowsIsRun equates it with Run |
| Collision.Sweep | collision.cpp:146-160 | one whole checkCollisions over the bodies, keeping their number; SweepIsRun equates it with Run over Pairs |
| Collision.RunFrame | collision.cpp:149-157 | running any pairs moves no tree and writes only the latches of objects that are the first of some pair |
| Collision.SweepFrame | collision.cpp:146-157 | a whole sweep moves no tree and never writes the last object's latch |
| Collision.RowRunIsRun | collision.cpp:147-159 | one pass of the inner loop runs the pairs (i, i+1), ..., (i, n-1) in order |
| Collision.SweepRowsIsRun | collision.cpp:146-160 | the first i passes of the outer loop run exactly the pairs of the first i rows |
| Collision.SweepIsRun | collision.cpp:146-160 | the two loops together run Pairs(n), which PairsExactlyOnce characterises |
| Collision.RunStill | collision.cpp:149 | when no object moves, a sweep changes nothing |
| Collision.TwoBodySweep | collision.cpp:146-157 | with two objects, a sweep examines the one pair (0, 1) |
| Collision.TwoBodySweepIdempotent | collision.cpp:146-157 | with two objects, a second sweep without movement changes nothing, so a collision gives one bounce |
| Collision.ThreeBodySweep | collision.cpp:146-147 | with three objects, a sweep examines (0, 1), (0, 2) and (1, 2), in that order |
| Collision.SharedLatchRebounces | collision.cpp:151-157 | with three objects, a latched colliding pair (0, 1) has its latch cleared by the miss of pair (0, 2), so the next sweep bounces it again |
| Collision.OuterBoundAsWritten | collision.cpp:146 | `objects.size() - 1` computed in a 64-bit unsigned size_t |
| Collision.AsWrittenAgrees | collision.cpp:146 | for a non-empty scene, the bound as written equals the intended bound |
| Collision.EmptySceneBoundWraps | collision.cpp:146 | for an empty scene, the bound as written wraps to 2^64 - 1, above every value of the int counter, while the intended bound is 0 with no pairs |
| Collision.BodyOf | lib/object_w_tree.h:66-68 | the body's velocity is non-zero exactly when the object's getVel is non-zero |
| Collision.ApplyBounce | collision.cpp:155 | both velocities are replaced by the response of bounce to the two old velocities |
| Collision.Respond | collision.cpp:150-157 | the latch becomes the query result; both objects bounce exactly when the latch was clear and there was a hit; otherwise the velocities stay; no tree changes |
| Collision.CheckPair | collision.cpp:149-157 | on the heap, the two objects' new bodies are PairOutcome of their old bodies |
| Collision.DepthAfter | collision.cpp:213-222 | a key moves the depth by at most one, and a depth in [0, 4] stays in [0, 4] |
| Collision.DepthStaysInRange | collision.cpp:213-222 | from any depth in [0, 4], including the 1 that init sets, no sequence of keys leaves [0, 4] |
| Collision.Toggled | collision.cpp:202-227 | the flag flips exactly when the key is one of its two letters |
| Collision.ResetPairExamined | collision.cpp:187-194 | in the first sweep after reset, the one pair is examined because the sphere moves: the sphere's latch becomes the query between the sphere's tree and the cube's tree, and the cube's latch stays clear |
| Collision.ResetBodies | collision.cpp:187-194 | the bodies reset leaves: a unit occupied sphere at (2, 0, 8) moving at (-1, 0, 0) and a cube of half-side 1 at (-2, 0, 8) at rest with its cube tree of the given depth, both latches clear; Scene.Reset, ResetPairExamined and ResetFirstSweep are stated through it |
| Collision.ResetFirstSweep | collision.cpp:187-194 | in the first sweep after reset, the sphere's latch is set exactly when the sphere overlaps a leaf of the cube tree, and it stays clear, the two being 4 apart with radii 1 and the half-diagonal |
| Collision.SetBodyVel | collision.cpp:194 | setVel replaces the body's velocity and keeps its latch and tree |
| Collision.NewResetObjects | collision.cpp:190-191 | reset creates a fresh sphere and a fresh cube at rest, valid and owning disjoint trees |
| Collision.Scene.ObjsAreObjects | collision.cpp:145-161 | in a valid scene the set Objs that frames the sweep is exactly the set of the scene's objects |
| Collision.Scene.Init | collision.cpp:248-258 | depth 1, solid drawing on, not paused, then a reset scene whose object set Objs is exactly its two fresh objects, with fresh trees |
| Collision.Scene.Reset | collision.cpp:187-197 | the scene becomes two fresh objects: the sphere moving at (-1, 0, 0) and the cube at rest, built at the current depth; Objs becomes exactly those two and the trees are fresh, so dropped objects leave the sweep's frame; the settings stay |
| Collision.Scene.Keyboard | collision.cpp:200-229 | Escape asks to quit; w/W and q/Q move the depth as DepthAfter; m/M and p/P flip their flags; space resets, with Objs and the trees as in Reset; any other key leaves the objects and the settings unchanged |
| Collision.Scene.CheckCollisions | collision.cpp:145-161 | writes only latches and velocities of the scene's objects (ObjsAreObjects); the objects' new bodies are Sweep of the old ones, which SweepIsRun equates with Run over Pairs (every pair i < j once, in order); the scene stays valid |
| Collision.Scene.CheckRow | collision.cpp:147-159 | one pass of the inner loop updates the bodies as RowRun over the row |
| Collision.Scene.CheckNext | collision.cpp:147-158 | one iteration of the inner loop extends the row by the next pair |
| Collision.Scene.CheckPairAt | collision.cpp:149-157 | on the heap, pair (i, j) updates the bodies as PairStep |

## Left out

- Rendering and windowing are not modelled. This covers the `draw`
  overrides, `TreeSphere::draw`, `myDisplay`, `myReshape`,
  `drawObjects`, `main`, and `glutPostRedisplay` in `reset`.
  `drawRecurse` and `drawSphereTree` return the sequence of spheres they
  would draw.
- IEEE doubles and `sqrt` are not modelled; everything is over the
  reals. `getMagnitude` appears only as the squared comparison, or as
  the parameter `R` of the cube constructor, `Reset`, `Keyboard` and
  `Init`. `getVel` appears only as the test "some component is
  non-zero".
- `getDist` is not modelled, because nothing in the modelled core calls
  it.
- `Object::bounce` is an opaque parameter. As written it reads the
  uninitialised `newvz` and overwrites `newvy` and `other._ySpeed`, so
  it has no defined result to model.
- `getNextSampleTime` and `myIdle` are not modelled: the wall-clock
  scheduling, the 0.1 s clamp, and the per-frame calls of
  `checkCollisions` and `update`. `Object.Update` models one `update`
  call.
- `Scene.Keyboard`: `exit(0)` on Escape is the result `quit`. The mouse
  coordinates are unused by the source and are not parameters.
- `Scene.Init`: the start time and the next sample time read from GLUT
  are not modelled.
- Memory management is not modelled: the destructors, the child array
  that is never freed, the shallow copies made by `_spaceTree =
  OctreeNode(...)`, and the objects leaked by `objects.clear()`.
  Ownership is modelled structurally instead: every tree is owned by its
  object alone, and `Reset` allocates fresh objects.
- The `double` return type of `checkCollisions`, which returns nothing,
  is not modelled, since no caller uses the value.
- The commented-out `Cylander` class and the unused constant
  `SPHERE_TREE_DEPTH` are not modelled.
- `CheckCol`: the query checks only the first tree's occupancy flag, as
  written (`CheckColIgnoresSecondFlags`). Whether the second flag was
  meant to be checked too is not evident, so this is not listed as a
  finding.
- `Collision.PairStep`: a pair that does not name two objects in
  increasing order changes nothing. The sweep only ever passes pairs
  i < j < n (`PairsExactlyOnce`), so this case never arises.

## Findings

| source | as written | input that shows it | evidently intended | confidence | as-written member | corrected member |
|---|---|---|---|---|---|---|
| collision.cpp:146 | the outer loop runs while `i < objects.size() - 1`, computed in the unsigned size_t | an empty `objects`: the bound wraps to 2^64 - 1, so the int counter never reaches it and overflows | no pass of the outer loop for an empty scene | not executed; latent, because `reset` always leaves two objects | Collision.OuterBoundAsWritten, Collision.EmptySceneBoundWraps | Collision.OuterBound, Collision.Scene.CheckCollisions |
