# graphyz force layout in Dafny

graphyz lays out a graph with a force-directed simulation. This project models three parts of it and proves properties of the model:

- **The Barnes-Hut quadtree of `quadtree.go`.**
  - `Rect.Contains`, `NewQuadTree`, `Insert` and `Subdivide`.
  - The post-order `CalculateMasses`.
  - The recursive `CalculateForce` query.
- **The import bookkeeping of `ImportFromJson`, in both revisions.**
  - `graph.go`: zero weights become 1, node degrees, `TotalDegree` and one colour entry per group.
  - `io.go`: the same without `TotalDegree`, plus a radius per node.
- **One tick of `applyForce` in `graph.go`.**
  - Velocities are reset or set by gravity.
  - Repulsion comes from the quadtree or from every other node.
  - Springs pull along the edges.
  - The integrate step clamps velocities and positions.

float32 values are read as reals and raylib's `Vector2` is a pair of reals (`Geometry.Vec2`). Square root, `Vector2Normalize` and the spring's division `(dist - l) / s` are uninterpreted functions, passed in one `MathOps` value. The other divisions, `10*scale/dist`, `Center /= TotalMass` and `s / d` in `CalculateForce`, are real division. In the model the first two sit behind guards that keep the divisor non-zero, and `FarEnough` handles d = 0 on its own. What the proofs cover is the branching, the skipping and the summation around these functions.

Modules:

- `Geometry` (`geometry.dfy`): vector arithmetic, `Vector2Clamp`, and the uninterpreted float routines.
- `QuadTree` (`quadtree.dfy`): the tree as an arena. A `Tree` class holds every cell in one sequence, with the root at index 0. Its methods change the cells in place, as the Go methods change the `QuadTree` structs. `CalculateForce` is a pure recursive function, because the Go code only reads the tree there.
- `Graph` (`graph.go`'s model, `graph.dfy`):
  - the `Node` and `Edge` records;
  - `ImportFromJson` as methods on the decoded values;
  - `applyForce` as `Graph.ApplyForce`, a method of the `Graph` class that runs one method per loop of the source.
- `Io` (`io.dfy`): `io.go`'s revision of `ImportFromJson` and of `Node`, which has a radius.

The global `capacity` and `config` of the source are parameters:

- `capacity` is at least 1.
- `config` is a `Graph.Config` value.
- `Insert` also takes a `depth` bound, because the Go recursion has none (see Left out).

## Model

| member | source | states |
|---|---|---|
| Geometry.Clamp | graph.go:113-115 | A clamped component lies between the bounds when they are ordered. It is unchanged when already between them. |
| QuadTree.ContainsClamp | quadtree.go:19-22 | A box of non-negative size holds exactly the points that clamping to its corners leaves in place. A box of negative width or height holds nothing. |
| QuadTree.NewLeafWeighed | quadtree.go:24-33 | A fresh cell is an ordered one-cell tree over its boundary with no bodies. Its mass 0 and centre (0, 0) are already what weighing it gives. |
| QuadTree.ContainsCorners | quadtree.go:19-22 | Containment is closed: all four corners, and so all four edges, of a box of non-negative size belong to it. |
| QuadTree.FirstQuadrant | quadtree.go:68-74 | The child a body is handed to contains it, and no lower-numbered child does. A child is found exactly when the parent's box contains the body. |
| QuadTree.QuadrantHalves | quadtree.go:57-66 | Each quadrant has half its parent's width and height, and lies within a parent of non-negative size. |
| QuadTree.QuadrantsTile | quadtree.go:56-66 | The four closed quadrants built by Subdivide cover the parent's box exactly: a point is in the parent iff it is in some quadrant. |
| QuadTree.InQuadrantPartition | quadtree.go:68-76 | Redistribution loses and duplicates nothing: the four children's shares together are, as a multiset, the parent's bodies. |
| QuadTree.Tree.constructor | quadtree.go:24-33 | A new tree is one leaf over the given box, with no bodies, mass 0 and centre (0, 0), satisfying the tree invariant. |
| QuadTree.Tree.Insert | quadtree.go:35-54 | A body outside the cell's box is refused and leaves the tree unchanged. While the cell holds fewer than `capacity` bodies, the body is appended there, even to an internal cell that Subdivide emptied. A full leaf containing the body is subdivided: its bodies move out and its children are four fresh cells at the end of the arena. Cells outside the cell's subtree never change. A true answer implies the body lies in the box and was appended to a cell of the subtree. The tree holds the body exactly when the answer is true, and every cell keeps at most `capacity` bodies. The arena and the answer are exactly those of `Inserted`, a function that follows the same branches, with `Subdivided` (Subdivide's result written cell by cell) for the split. |
| QuadTree.Tree.InsertIntoChildren | quadtree.go:47-53 | The children are tried in order, and the first to accept the body ends the loop. On acceptance by child k, the body lies in quadrant k and was appended to a cell below child k. The subtrees of the later children, and of every earlier child whose quadrant does not contain the body, are unchanged, and so is everything outside the parent's subtree. The tree holds the body exactly when the answer is true. The arena and the answer are those of `InsertedIntoChildren`, which tries the children from the first on. |
| QuadTree.Tree.Subdivide | quadtree.go:56-77 | Four fresh children are appended after the arena's end. Child k has the box of quadrant k and receives the bodies whose first containing quadrant is k. The cell's own bodies are cleared, nothing else changes, and no body is lost. |
| QuadTree.Tree.Distribute | quadtree.go:68-75 | After the loop, each fresh child holds exactly its quadrant's share of the parent's bodies, in their original order. |
| QuadTree.Tree.Hand | quadtree.go:69-74 | A body goes to the first child containing it, which still has room. It is appended there and nothing else changes, so redistribution never subdivides again. |
| QuadTree.Tree.CalculateMasses | quadtree.go:79-100 | On a subtree whose mass fields are as NewQuadTree left them, every cell below i receives its `Mass` and `Centre`, and every other cell is unchanged. |
| QuadTree.Tree.WeighChildren | quadtree.go:90-96 | The child loop returns the sum of the children's masses and of their centres weighted by mass, and it weighs every cell below the children. |
| QuadTree.LeafSums | quadtree.go:82-86 | The leaf loop returns the total degree of the bodies and the sum of their degree-weighted positions. |
| QuadTree.MassOfLeaves | quadtree.go:79-99 | A cell's mass is the total degree of the bodies in the leaves below it. Bodies held by an internal cell are not counted. |
| QuadTree.CentreOfMass | quadtree.go:79-99 | With non-negative degrees, a cell of non-zero mass has its centre at the degree-weighted average position of the bodies in the leaves below it. |
| QuadTree.WeighedFromRoot | quadtree.go:79-99 | Weighing from the root leaves every cell of the arena carrying its `Mass` and `Centre`: the result is `WeighAll` of the arena. |
| QuadTree.MassesAdd | quadtree.go:80-99 | In a weighed tree, a leaf's mass is the total degree of its bodies. An internal cell's mass is the sum of its four children's masses. A leaf of non-zero mass has its centre at the degree-weighted average position of its bodies, whatever the signs of the degrees. |
| QuadTree.CalculateForce | quadtree.go:103-115 | An empty leaf exerts no force. |
| QuadTree.PushOdd | quadtree.go:111-112 | If normalizing is odd, two bodies push each other equally hard, in opposite directions. |
| QuadTree.LeafForce | quadtree.go:104-115 | A leaf whose bodies are all within squared distance 0.1 of the query exerts no force. |
| QuadTree.FarEnoughScaled | quadtree.go:117-119 | For a positive distance, the test `s / d < theta` holds exactly when s < theta·d. At distance 0 only a negative width passes, since s / 0 is then −Inf; otherwise it is +Inf or NaN. |
| QuadTree.LeafForceConcat | quadtree.go:104-115 | A leaf's force over two runs of bodies is the sum of the forces of each run. |
| QuadTree.NearIgnored | quadtree.go:105-110 | A body within squared distance 0.1 of the query, or at the query's own position, contributes nothing wherever it stands in a leaf. |
| QuadTree.WidthsFromRoot | quadtree.go:57-66 | Quadrants halve the width, so a root of non-negative width gives every cell a non-negative width. |
| QuadTree.ExactWithoutTheta | quadtree.go:116-137 | With theta <= 0, the aggregate branch is never taken. The force is then the exact sum of the per-body pushes over all the bodies in the leaves below the cell. |
| QuadTree.SplitRootReached | quadtree.go:35-77 | Inserting a body at (0.5, 0.5) and then one at (1.5, 0.5) into a root of capacity 1 over (0, 0, 2, 2) splits the root and leaves the bodies in the two top quadrants, with the bottom two empty: the arena `SplitRoot`. |
| QuadTree.WrittenCentreLost | quadtree.go:87-98 | As written, the root of `SplitRoot`, of mass 2 with bodies at (0.5, 0.5) and (1.5, 0.5), gets a non-finite centre from its empty bottom quadrants. The guarded model gives (1, 0.5). |
| Graph.Weight | graph.go:142-145 | An imported weight is never 0, and a non-zero weight is kept. |
| Graph.ImportFromJson | graph.go:119-153 | Every edge is its link with weight `Weight(value)`, so no weight is 0. Each node's degree is its incident weight. Source and target count separately, so a self-loop counts twice. `TotalDegree` is the sum of the weights. The colour map has one entry per group. |
| Graph.PlaceNodes | graph.go:130-141 | Each node is placed at its drawn position with degree 0 and no velocity. The colour map holds exactly the groups, each created by the group's first node. |
| Graph.WeighEdges | graph.go:142-150 | Each weight is adjusted and added to both endpoints' degrees and to the total. |
| Graph.ColoursStep | graph.go:135-140 | Visiting one more node adds a colour entry exactly when its group has none, which keeps one entry per group seen. |
| Graph.DegreesStep | graph.go:147-148 | Adding an edge's weight to both endpoints keeps every degree equal to the node's incident weight. |
| Graph.Handshake | graph.go:147-149 | Over edges between valid nodes, the incident weights of all nodes add up to twice the sum of the weights. |
| Graph.DegreesTwiceTotal | graph.go:147-149 | After import, the degrees of all nodes add up to twice `TotalDegree`. |
| Graph.StartVelocity | graph.go:35-48 | Under gravity with a non-zero strength, the velocity divided by the strength leads from the position to the screen centre. A node at the centre gets none. Without gravity every velocity is zero. |
| Graph.Graph.ResetVelocities | graph.go:35-48 | Velocities are overwritten, not accumulated. Under gravity a velocity becomes (screen centre − position) × GravityStrength; otherwise it becomes 0. |
| Graph.Graph.ExactRepulsion | graph.go:68-87 | Each node's velocity gains the pushes of all other nodes, computed from the positions and degrees before the loop. |
| Graph.Graph.PushAll | graph.go:71-84 | The inner loop skips `i == j` and pairs closer than squared distance 0.01. It adds the other pushes to node i and changes nothing else. |
| Graph.RepulsionFrame | graph.go:69-84 | The pushes depend only on positions and degrees, so velocities updated earlier in the loop do not change later pushes. |
| Graph.PairPush | graph.go:72-82 | A node does not push itself, nor a node at the same position. |
| Graph.PairOdd | graph.go:76-82 | One pair's pushes are equal and opposite. |
| Graph.RepulsionBalanced | graph.go:69-86 | In exact mode, the pushes on all the nodes add up to zero. |
| Graph.ExactKeepsMomentum | graph.go:69-86 | Exact-mode repulsion leaves the sum of the velocities unchanged. |
| Graph.Graph.BuildTree | graph.go:51-56 | The tree's root box is one screen each way of the origin. The tree satisfies the invariant, with every mass field unset. It holds exactly the bodies of the accepted nodes, and only a node inside the root box is accepted. The arena is exactly `Built`: `Inserted` applied at the root to every node's body in turn. |
| Graph.PlantedFrame | graph.go:53-55 | The tree built from the nodes depends only on their positions and degrees, not on their velocities. |
| Graph.PlantedRoom | graph.go:51-56 | With no more nodes than `capacity`, all inside the root box, the built tree is the root alone, holding every node's body in order: nothing is subdivided. |
| Graph.Offer | graph.go:54-56 | Offering a body keeps the tree valid and unweighed over the same root box. The tree gains the body exactly when the answer is true, and a true answer needs the body inside the box. The new arena and the answer are `Inserted` at the root. |
| Graph.HeldWithin | graph.go:54-56 | The tree holds only bodies of the nodes offered to it. |
| Graph.HeldAll | graph.go:54-56 | When every offer is accepted, the tree holds the body of every node. |
| Graph.HeldStep | graph.go:54-56 | Each offer adds the node's body to the held bodies exactly when it is accepted. |
| Graph.Graph.ApplyTreeForce | graph.go:58-67 | Each node's velocity gains the weighed tree's `CalculateForce` on its body with the configured theta. Nothing else changes. |
| Graph.Graph.BarnesHutRepulsion | graph.go:50-67 | The tree is exactly the one the program builds: `Built` from the nodes before the loop, then weighed (`WeighAll`). Its root is over the screen box and every cell is weighed. It is a quadtree of the given capacity: with its parent links it satisfies the tree invariant, so no cell holds more than `capacity` bodies and every child's box is its parent's quadrant. With a non-negative screen width every cell's width is non-negative. It holds exactly the bodies of the accepted nodes, all inside the box. Each node's velocity gains `CalculateForce` on its body. |
| Graph.Graph.EdgeAttraction | graph.go:88-110 | Each node's velocity gains the springs of the edges whose target it is and loses those whose source it is. Edges shorter than 0.1 are skipped, and the sum of all velocities is unchanged. |
| Graph.StretchOdd | graph.go:95-103 | If normalizing is odd, the opposite offset gives the same length and the opposite spring force. |
| Graph.SpringReversed | graph.go:93-105 | Reversing an edge reverses its spring, so the edge's direction does not change what it does to its endpoints. |
| Graph.EdgeNetFrame | graph.go:93-105 | The springs depend only on positions and degrees, so the velocities set earlier in the tick do not change them. |
| Graph.EdgeStep | graph.go:93-105 | Taking one edge's spring from its source and giving it to its target accounts for exactly one more edge. |
| Graph.EdgeSkip | graph.go:96-100 | An edge shorter than 0.1 changes no velocity. |
| Graph.TransferKeepsSum | graph.go:104-105 | Subtracting dv at one endpoint and adding it at the other keeps the sum of the velocities. |
| Graph.Integrated | graph.go:112-116 | With temperature >= 0, each velocity component lies in [−temperature, temperature], and a velocity already inside is unchanged. Each position lies in [−10W, 10W] × [−10H, 10H]. Name, group and degree are kept. |
| Graph.Graph.Integrate | graph.go:112-116 | Every node becomes its `Integrated` self. |
| Graph.Graph.ApplyForce | graph.go:34-117 | After one tick every node is `Ticked`: its start velocity, plus the repulsion on it from the positions before the tick (`CalculateForce` on the weighed tree in Barnes-Hut mode, the exact pushes otherwise), plus its edges' springs, then integrated. In Barnes-Hut mode the tree meets `BarnesHutTree`: it is `Built` from the nodes before the tick and weighed, a quadtree of the given capacity, satisfying the tree invariant, with non-negative widths when the screen width is non-negative, and it holds exactly the accepted nodes' bodies. Edges and `TotalDegree` are unchanged; through `Ticked`, so are names, groups and degrees, and the clamps hold. |
| Graph.Ticked | graph.go:34-117 | A node after one tick keeps its name, group and degree. With temperature >= 0 each velocity component lies in [−temperature, temperature], and with a non-negative screen size the position lies in the ±10W × ±10H box. |
| Graph.TickSteps | graph.go:34-117 | The four loops of applyForce, run one after the other, give every node its `Ticked` self computed from the positions before the tick. |
| Graph.Graph.Repel | graph.go:50-87 | Each node's velocity gains the repulsion on it: `CalculateForce` on the weighed tree in Barnes-Hut mode, the exact pushes otherwise. In Barnes-Hut mode the tree meets `BarnesHutTree`: it is `Built` from the nodes and weighed, a quadtree of the given capacity satisfying the tree invariant, with non-negative widths when the screen width is non-negative. |
| Graph.RepelledWithoutTheta | graph.go:58-67 | With theta <= 0, the Barnes-Hut repulsion on a node is the exact sum of the pushes of all the bodies in the tree's leaves. |
| Graph.BarnesHutTreeFrame | graph.go:50-56 | Which tree a tick builds depends only on positions and degrees, so resetting the velocities first does not change it. |
| Graph.FewNodesExact | graph.go:50-67 | With no more nodes than `capacity`, all on screen, a Barnes-Hut tick repels each node by the exact pushes of all the bodies, whatever theta: the tree is one leaf. |
| Io.Radius | io.go:48-50 | A radius is at least 2. It is the square root of the degree whenever that root is at least 2, and 2 otherwise. |
| Io.ImportFromJson | io.go:12-53 | Each edge is its link with a zero weight made 1. Each node's degree is its incident weight, and its radius is `Radius(degree)`. The colour map has one entry per group. |
| Io.PlaceNodes | io.go:24-38 | Each node is placed at its drawn position. The colour map holds exactly the groups, each created by the group's first node. |
| Io.WeighEdges | io.go:39-46 | Only the edge weights and the two endpoint degrees change. Each degree gains the node's incident adjusted weight, and no total is kept. |
| Io.DegreesStep | io.go:44-45 | One more edge keeps every degree equal to the node's incident weight. |
| Io.SetRadii | io.go:48-50 | Every radius becomes `Radius(degree)`, hence at least 2, and nothing else changes. |

## Left out

- **main.go.** The raylib window, camera, input and drawing, and its earlier copy of the tick, are not part of this model.
- **File reading and JSON decoding.** `ImportFromJson` starts from the decoded nodes and links. So the error return for an unreadable file is not modelled. `TotalDegree` is an exported field of graph.go's `Graph`, so the decoder would also fill it from a "TotalDegree" key; the model takes the decoded total as 0.
- **Random numbers and the spiral.**
  - graph.go's random initial positions and io.go's golden-angle spiral (cos, sin) are replaced by a `positions` parameter.
  - The random colour values are not modelled. The colour map records which node created each group's entry, and its keys are exactly the groups.
- **Goroutines.** The Barnes-Hut force loop and the edge loop run as goroutines in the source. The model runs them sequentially, in slice order. The edge goroutines race on the shared `from.vel` and `to.vel`; that interleaving, and any update lost to it, is not modelled.
- **Float32 behaviour.** Rounding, NaN and infinities are not modelled, except in two places. `FarEnough` reads `s / d < theta` with d = 0. `WrittenCentre` models the as-written centre, with `None` standing for NaN or an infinity.
  - Square root, `Vector2Normalize` and the spring's division `(dist - l) / s` are uninterpreted. That division includes s = 0, when a node has degree 0.
  - Two properties of these functions are assumed only where a lemma states them as a precondition: `SqrtNonNegative` and `NormalizeOdd`.
  - A negative degree would make `math.Sqrt` NaN and `math.Max` return NaN. `Io.Radius` reads `Max` on ordinary reals.
- **QuadTree.Tree.Insert:** the call that reaches the `depth` bound answers false and changes nothing. The calls above it may already have subdivided full leaves on the way down, with their bodies moved, not lost. The source recurses without bound on more than `capacity` coincident bodies. So the model does not capture that non-termination. Neither the contract nor `Inserted` comes with a proof that a body inside the box is refused only at the depth bound.
- **QuadTree.Tree.CalculateMasses:** a cell of total mass 0 is guarded. Its centre stays the undivided accumulated sum, which is what the rest of the model uses. The source divides by zero there; Findings shows what that does.
- **Graph.Graph.BuildTree:** the tree is pinned to `Built`, but no lemma proves that every node inside the root box is accepted. Such a node is refused only once the `depth` bound is reached (see `QuadTree.Tree.Insert`), and nothing here excludes other refusals. Nodes outside the box are dropped: the box covers one screen each way, positions may reach ten screens each way, and `Insert`'s answer is ignored.
- **Graph.Graph.BarnesHutRepulsion:** the velocities follow the guarded centre of mass, not the source's. As written, a cell with an empty or zero-mass leaf below it gets a NaN centre. Then d is NaN, `s / d < theta` is false, and the program always recurses into that cell. The modelled `CalculateForce` can take the aggregate branch there, so its Barnes-Hut velocities differ from the program's for such trees (see Findings).
- **`isSelected`.** It is never read by the modelled code and is not a field of `Graph.Node`.
- **Missing behaviour.** The source has no temperature schedule (the caller passes `temperature`), no acceleration fields and no freezing of selected nodes. None are modelled.

## Findings

| source | as written | input that shows it | evidently intended | confidence | as-written member | corrected member |
|---|---|---|---|---|---|---|
| quadtree.go:87-88, quadtree.go:97-98 | `Center /= TotalMass` runs even when `TotalMass` is 0. An empty quadrant gets a 0/0 (NaN) centre, and `Center += child.Center * child.TotalMass` carries the NaN into every ancestor. | Capacity 1, root box (0,0,2,2), bodies of degree 1 inserted at (0.5, 0.5) and then (1.5, 0.5). The second insertion splits the root and leaves the two bottom quadrants empty. The root has mass 2, but its centre is NaN. | An empty cell contributes nothing, and the root's centre is (1, 0.5), the weighted average of its leaf bodies. | not executed | QuadTree.WrittenCentreLost | QuadTree.CentreOfMass |
