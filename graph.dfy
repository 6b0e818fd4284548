/** The graph of graph.go: nodes with positions and velocities, weighted
    edges between node indices, the bookkeeping of ImportFromJson and one
    tick of the force layout, applyForce. */
module Graph {
  import opened Geometry
  import QuadTree

  /** graph.go's Node, less `isSelected`, which nothing here reads. */
  datatype Node = Node(name: string, group: int, degree: real, pos: Vec2, vel: Vec2)

  /** graph.go's Edge: the indices of its two endpoints and its weight. */
  datatype Edge = Edge(source: int, target: int, value: real)

  /** A node as the JSON decoder fills it: only the exported fields. */
  datatype JsonNode = JsonNode(name: string, group: int)

  /** The package-level `config` the tick reads. */
  datatype Config = Config(gravity: bool, gravityStrength: real, barnesHut: bool, theta: real,
                           screenWidth: int, screenHeight: int)

  /* ---------------- Import bookkeeping ---------------- */

  /** An edge weight after import: a weight of 0 becomes 1. */
  function Weight(value: real): (w: real)
    ensures w != 0.0
    ensures value != 0.0 ==> w == value
  {
    if value == 0.0 then 1.0 else value
  }

  /** Every edge names two nodes among the first n. */
  ghost predicate EndpointsBelow(edges: seq<Edge>, n: int)
  {
    forall k | 0 <= k < |edges| :: 0 <= edges[k].source < n && 0 <= edges[k].target < n
  }

  /** The weight of the edges at node v: each edge counts once for naming v
      as its source and once for naming v as its target, so a self-loop
      counts twice. */
  function IncidentWeight(edges: seq<Edge>, v: int): real
  {
    if edges == [] then 0.0
    else
      var e := edges[|edges| - 1];
      IncidentWeight(edges[..|edges| - 1], v)
        + (if e.source == v then e.value else 0.0) + (if e.target == v then e.value else 0.0)
  }

  /** The sum of the edge weights. */
  function SumWeights(edges: seq<Edge>): real
  {
    if edges == [] then 0.0 else SumWeights(edges[..|edges| - 1]) + edges[|edges| - 1].value
  }

  /** The incident weights of nodes 0 .. n-1, summed. */
  function IncidentTotal(edges: seq<Edge>, n: nat): real
  {
    if n == 0 then 0.0 else IncidentTotal(edges, n - 1) + IncidentWeight(edges, n - 1)
  }

  /** The degrees of `nodes`, summed. */
  function DegreeSum(nodes: seq<Node>): real
  {
    if nodes == [] then 0.0 else DegreeSum(nodes[..|nodes| - 1]) + nodes[|nodes| - 1].degree
  }

  /** The groups of the decoded nodes. */
  function Groups(decoded: seq<JsonNode>): set<int>
  {
    set k | 0 <= k < |decoded| :: decoded[k].group
  }

  /** The colour map has one entry per group, created by the first node of
      the group (the entry's colour is drawn at random, so the map records
      only which node created it). */
  ghost predicate ColoursByGroup(decoded: seq<JsonNode>, colours: map<int, nat>)
  {
    && colours.Keys == Groups(decoded)
    && forall g | g in colours ::
         && colours[g] < |decoded| && decoded[colours[g]].group == g
         && forall k | 0 <= k < colours[g] :: decoded[k].group != g
  }

  /** ImportFromJson of graph.go on what the decoder produced: each node at
      the position drawn for it, a colour entry per group, every zero
      weight made 1, and each weight added to both endpoints' degrees and
      to the total degree. */
  method ImportFromJson(decoded: seq<JsonNode>, links: seq<Edge>, positions: seq<Vec2>)
    returns (nodes: seq<Node>, edges: seq<Edge>, totalDegree: real, colours: map<int, nat>)
    requires |positions| == |decoded| && EndpointsBelow(links, |decoded|)
    ensures |nodes| == |decoded| && |edges| == |links|
    ensures forall k | 0 <= k < |edges| :: edges[k] == links[k].(value := Weight(links[k].value))
    ensures forall k | 0 <= k < |edges| :: edges[k].value != 0.0
    ensures forall v | 0 <= v < |nodes| ::
              nodes[v] == Node(decoded[v].name, decoded[v].group, IncidentWeight(edges, v), positions[v], Zero)
    ensures totalDegree == SumWeights(edges)
    ensures ColoursByGroup(decoded, colours)
  {
    var placed;
    placed, colours := PlaceNodes(decoded, positions);
    nodes, edges, totalDegree := WeighEdges(placed, links);
  }

  /** ImportFromJson's node loop: every node placed at its drawn position,
      and a colour entry created for each group not seen before. */
  method PlaceNodes(decoded: seq<JsonNode>, positions: seq<Vec2>) returns (nodes: seq<Node>, colours: map<int, nat>)
    requires |positions| == |decoded|
    ensures |nodes| == |decoded|
    ensures forall v | 0 <= v < |nodes| :: nodes[v] == Node(decoded[v].name, decoded[v].group, 0.0, positions[v], Zero)
    ensures ColoursByGroup(decoded, colours)
  {
    nodes := [];
    colours := map[];
    var i := 0;
    while i < |decoded|
      invariant i <= |decoded| && |nodes| == i
      invariant forall v | 0 <= v < i :: nodes[v] == Node(decoded[v].name, decoded[v].group, 0.0, positions[v], Zero)
      invariant ColoursByGroup(decoded[..i], colours)
    {
      nodes := nodes + [Node(decoded[i].name, decoded[i].group, 0.0, positions[i], Zero)];
      ColoursStep(decoded, i, colours);
      if decoded[i].group !in colours {
        colours := colours[decoded[i].group := i];
      }
      i := i + 1;
    }
    assert decoded[..i] == decoded;
  }

  /** ImportFromJson's edge loop (graph.go's version): each zero weight made
      1, and each weight added to both endpoints' degrees and to the total. */
  method WeighEdges(placed: seq<Node>, links: seq<Edge>) returns (nodes: seq<Node>, edges: seq<Edge>, totalDegree: real)
    requires EndpointsBelow(links, |placed|)
    ensures |nodes| == |placed| && |edges| == |links|
    ensures forall k | 0 <= k < |edges| :: edges[k] == links[k].(value := Weight(links[k].value))
    ensures DegreesFrom(placed, nodes, edges)
    ensures totalDegree == SumWeights(edges)
  {
    nodes := placed;
    edges := [];
    totalDegree := 0.0;
    var k := 0;
    while k < |links|
      invariant k <= |links| && |edges| == k && |nodes| == |placed|
      invariant forall j | 0 <= j < k :: edges[j] == links[j].(value := Weight(links[j].value))
      invariant DegreesFrom(placed, nodes, edges)
      invariant totalDegree == SumWeights(edges)
    {
      var edge := links[k];
      if edge.value == 0.0 {
        edge := edge.(value := 1.0);
      }
      DegreesStep(placed, nodes, edges, edge);
      nodes := nodes[edge.source := nodes[edge.source].(degree := nodes[edge.source].degree + edge.value)];
      nodes := nodes[edge.target := nodes[edge.target].(degree := nodes[edge.target].degree + edge.value)];
      totalDegree := totalDegree + edge.value;
      assert (edges + [edge])[..k] == edges;
      edges := edges + [edge];
      k := k + 1;
    }
  }

  /** Every node of `nodes` is its `placed` self with the incident weight
      of `edges` added to its degree. */
  ghost predicate DegreesFrom(placed: seq<Node>, nodes: seq<Node>, edges: seq<Edge>)
  {
    && |nodes| == |placed|
    && forall v | 0 <= v < |nodes| :: nodes[v] == placed[v].(degree := placed[v].degree + IncidentWeight(edges, v))
  }

  /** The edge loop's step: adding an edge's weight to both its endpoints'
      degrees accounts for one more edge. */
  lemma DegreesStep(placed: seq<Node>, nodes: seq<Node>, edges: seq<Edge>, e: Edge)
    requires DegreesFrom(placed, nodes, edges) && 0 <= e.source < |nodes| && 0 <= e.target < |nodes|
    ensures var half := nodes[e.source := nodes[e.source].(degree := nodes[e.source].degree + e.value)];
            DegreesFrom(placed, half[e.target := half[e.target].(degree := half[e.target].degree + e.value)], edges + [e])
  {
    assert (edges + [e])[..|edges|] == edges;
  }

  /** One more node adds its group to the groups. */
  lemma GroupsPush(seen: seq<JsonNode>, n: JsonNode)
    ensures Groups(seen + [n]) == Groups(seen) + {n.group}
  {
    var prefix := seen + [n];
    assert prefix[|seen|] == n;
    forall h | h in Groups(prefix) ensures h in Groups(seen) + {n.group} {
      var k :| 0 <= k < |prefix| && prefix[k].group == h;
      if k < |seen| {
        assert prefix[k] == seen[k];
      }
    }
    forall h | h in Groups(seen) ensures h in Groups(prefix) {
      var k :| 0 <= k < |seen| && seen[k].group == h;
      assert prefix[k] == seen[k];
    }
  }

  /** The colour loop's step: node i creates an entry exactly when its group
      has none yet. */
  lemma ColoursStep(decoded: seq<JsonNode>, i: nat, colours: map<int, nat>)
    requires i < |decoded| && ColoursByGroup(decoded[..i], colours)
    ensures var g := decoded[i].group;
            ColoursByGroup(decoded[..i + 1], if g in colours then colours else colours[g := i])
  {
    var g := decoded[i].group;
    var next := if g in colours then colours else colours[g := i];
    var seen, prefix := decoded[..i], decoded[..i + 1];
    assert prefix == seen + [decoded[i]];
    GroupsPush(seen, decoded[i]);
    assert next.Keys == colours.Keys + {g};
    forall h | h in next
      ensures next[h] < i + 1 && prefix[next[h]].group == h
      ensures forall k | 0 <= k < next[h] :: prefix[k].group != h
    {
      if h in colours {
        assert next[h] == colours[h] && prefix[next[h]] == seen[next[h]];
        forall k | 0 <= k < next[h] ensures prefix[k].group != h {
          assert prefix[k] == seen[k];
        }
      } else {
        assert h == g && next[h] == i && g !in Groups(seen);
        forall k | 0 <= k < i ensures prefix[k].group != h {
          assert prefix[k] == seen[k] && seen[k].group in Groups(seen);
        }
      }
    }
  }

  /** One more edge adds its weight to the incident total once for each
      endpoint among the first n nodes. */
  lemma {:induction false} IncidentTotalPush(edges: seq<Edge>, e: Edge, n: nat)
    ensures IncidentTotal(edges + [e], n)
         == IncidentTotal(edges, n) + (if e.source < n && 0 <= e.source then e.value else 0.0)
                                    + (if e.target < n && 0 <= e.target then e.value else 0.0)
  {
    assert (edges + [e])[..|edges|] == edges;
    if n > 0 {
      IncidentTotalPush(edges, e, n - 1);
    }
  }

  /** The handshake lemma: the incident weights of all nodes add up to twice
      the total weight, because every edge has two endpoints. */
  lemma {:induction false} Handshake(edges: seq<Edge>, n: nat)
    requires EndpointsBelow(edges, n)
    ensures IncidentTotal(edges, n) == 2.0 * SumWeights(edges)
  {
    if edges != [] {
      var m := |edges| - 1;
      assert edges == edges[..m] + [edges[m]];
      Handshake(edges[..m], n);
      IncidentTotalPush(edges[..m], edges[m], n);
    } else {
      ZeroIncident(n);
    }
  }

  lemma {:induction false} ZeroIncident(n: nat)
    ensures IncidentTotal([], n) == 0.0
  {
    if n > 0 {
      ZeroIncident(n - 1);
    }
  }

  lemma {:induction false} DegreeSumIsIncidentTotal(nodes: seq<Node>, edges: seq<Edge>)
    requires forall v | 0 <= v < |nodes| :: nodes[v].degree == IncidentWeight(edges, v)
    ensures DegreeSum(nodes) == IncidentTotal(edges, |nodes|)
  {
    if nodes != [] {
      DegreeSumIsIncidentTotal(nodes[..|nodes| - 1], edges);
    }
  }

  /** After ImportFromJson the degrees of all nodes add up to twice
      TotalDegree. */
  lemma DegreesTwiceTotal(nodes: seq<Node>, edges: seq<Edge>, totalDegree: real)
    requires EndpointsBelow(edges, |nodes|) && totalDegree == SumWeights(edges)
    requires forall v | 0 <= v < |nodes| :: nodes[v].degree == IncidentWeight(edges, v)
    ensures DegreeSum(nodes) == 2.0 * totalDegree
  {
    DegreeSumIsIncidentTotal(nodes, edges);
    Handshake(edges, |nodes|);
  }

  /* ---------------- The tick ---------------- */

  /** The velocity a node starts the tick with: a pull towards the centre of
      the screen under gravity, otherwise none. */
  function StartVelocity(config: Config, pos: Vec2): (v: Vec2)
    ensures config.gravity && config.gravityStrength != 0.0 ==>
              Add(pos, Div(v, config.gravityStrength))
                == Vec2(config.screenWidth as real / 2.0, config.screenHeight as real / 2.0)
    ensures pos == Vec2(config.screenWidth as real / 2.0, config.screenHeight as real / 2.0) ==> v == Zero
    ensures !config.gravity ==> v == Zero
  {
    if config.gravity then
      Scale(Sub(Vec2(config.screenWidth as real / 2.0, config.screenHeight as real / 2.0), pos), config.gravityStrength)
    else Zero
  }

  /** The push of node j on node i in exact mode: none on itself or from
      within squared distance 0.01, otherwise away from j, of size 10 times
      the product of the degrees over the squared distance. */
  function PairPush(m: MathOps, nodes: seq<Node>, i: nat, j: nat): (f: Vec2)
    requires i < |nodes| && j < |nodes|
    ensures i == j || nodes[i].pos == nodes[j].pos ==> f == Zero
  {
    if i == j || LengthSqr(Sub(nodes[i].pos, nodes[j].pos)) < 0.01 then Zero
    else QuadTree.Push(m, BodyOf(nodes[i]), nodes[j].pos, nodes[j].degree)
  }

  /** The pushes of nodes 0 .. k-1 on node i, summed in order. */
  function Repulsion(m: MathOps, nodes: seq<Node>, i: nat, k: nat): Vec2
    requires i < |nodes| && k <= |nodes|
  {
    if k == 0 then Zero else Add(Repulsion(m, nodes, i, k - 1), PairPush(m, nodes, i, k - 1))
  }

  /** The pushes of nodes j on nodes 0 .. k-1, summed. */
  function Column(m: MathOps, nodes: seq<Node>, j: nat, k: nat): Vec2
    requires j < |nodes| && k <= |nodes|
  {
    if k == 0 then Zero else Add(Column(m, nodes, j, k - 1), PairPush(m, nodes, k - 1, j))
  }

  /** The pushes of nodes 0 .. k-1 on nodes 0 .. a-1, summed. */
  function Square(m: MathOps, nodes: seq<Node>, a: nat, k: nat): Vec2
    requires a <= |nodes| && k <= |nodes|
  {
    if a == 0 then Zero else Add(Square(m, nodes, a - 1, k), Repulsion(m, nodes, a - 1, k))
  }

  /** a and b hold the same nodes up to their velocities. */
  ghost predicate SamePlaces(a: seq<Node>, b: seq<Node>)
  {
    |a| == |b| && forall v | 0 <= v < |a| :: a[v].pos == b[v].pos && a[v].degree == b[v].degree
  }

  /** The pushes depend on positions and degrees only. */
  lemma {:induction false} RepulsionFrame(m: MathOps, a: seq<Node>, b: seq<Node>, i: nat, k: nat)
    requires SamePlaces(a, b) && i < |a| && k <= |a|
    ensures Repulsion(m, a, i, k) == Repulsion(m, b, i, k)
  {
    if k > 0 {
      var j := k - 1;
      RepulsionFrame(m, a, b, i, j);
      assert a[i].pos == b[i].pos && a[i].degree == b[i].degree;
      assert a[j].pos == b[j].pos && a[j].degree == b[j].degree;
    }
  }

  /** Newton's third law for one pair: j pushes i exactly as hard as i
      pushes j, the other way. */
  lemma PairOdd(m: MathOps, nodes: seq<Node>, i: nat, j: nat)
    requires NormalizeOdd(m) && i < |nodes| && j < |nodes|
    ensures PairPush(m, nodes, j, i) == Neg(PairPush(m, nodes, i, j))
  {
    var delta := Sub(nodes[i].pos, nodes[j].pos);
    assert Sub(nodes[j].pos, nodes[i].pos) == Neg(delta);
    assert LengthSqr(Neg(delta)) == LengthSqr(delta);
    if i != j && 0.01 <= LengthSqr(delta) {
      QuadTree.PushOdd(m, BodyOf(nodes[i]), BodyOf(nodes[j]));
    }
  }

  lemma {:induction false} RepulsionOddColumn(m: MathOps, nodes: seq<Node>, j: nat, k: nat)
    requires NormalizeOdd(m) && j < |nodes| && k <= |nodes|
    ensures Repulsion(m, nodes, j, k) == Neg(Column(m, nodes, j, k))
  {
    if k > 0 {
      RepulsionOddColumn(m, nodes, j, k - 1);
      PairOdd(m, nodes, k - 1, j);
      NegAdd(Column(m, nodes, j, k - 1), PairPush(m, nodes, k - 1, j));
    }
  }

  lemma NegAdd(a: Vec2, b: Vec2)
    ensures Add(Neg(a), Neg(b)) == Neg(Add(a, b))
  {
  }

  lemma {:induction false} SquareWiden(m: MathOps, nodes: seq<Node>, a: nat, k: nat)
    requires a <= |nodes| && k < |nodes|
    ensures Square(m, nodes, a, k + 1) == Add(Square(m, nodes, a, k), Column(m, nodes, k, a))
  {
    if a > 0 {
      SquareWiden(m, nodes, a - 1, k);
    }
  }

  lemma {:induction false} SquareZero(m: MathOps, nodes: seq<Node>, k: nat)
    requires NormalizeOdd(m) && k <= |nodes|
    ensures Square(m, nodes, k, k) == Zero
  {
    if k > 0 {
      var j := k - 1;
      SquareZero(m, nodes, j);
      SquareWiden(m, nodes, j, j);
      RepulsionOddColumn(m, nodes, j, j);
    }
  }

  /** Exact-mode repulsion changes no total momentum: the pushes on all the
      nodes add up to zero. */
  lemma RepulsionBalanced(m: MathOps, nodes: seq<Node>)
    requires NormalizeOdd(m)
    ensures Square(m, nodes, |nodes|, |nodes|) == Zero
  {
    SquareZero(m, nodes, |nodes|);
  }

  /** After every node gains its exact-mode pushes, the velocities of the
      first a nodes add up to what they were plus the pushes on them. */
  lemma {:induction false} SumVelShift(m: MathOps, before: seq<Node>, after: seq<Node>, a: nat)
    requires |after| == |before| && a <= |before|
    requires forall v | 0 <= v < |before| :: after[v].vel == Add(before[v].vel, Repulsion(m, before, v, |before|))
    ensures SumVel(after[..a]) == Add(SumVel(before[..a]), Square(m, before, a, |before|))
  {
    if a > 0 {
      var j := a - 1;
      SumVelShift(m, before, after, j);
      SumVelLast(after, a);
      SumVelLast(before, a);
      var r := Repulsion(m, before, j, |before|);
      var q := Square(m, before, j, |before|);
      assert after[j].vel == Add(before[j].vel, r);
      assert Square(m, before, a, |before|) == Add(q, r);
      ShiftStep(SumVel(after[..j]), SumVel(before[..j]), q, before[j].vel, r);
    }
  }

  lemma ShiftStep(sa: Vec2, sb: Vec2, q: Vec2, bv: Vec2, r: Vec2)
    requires sa == Add(sb, q)
    ensures Add(sa, Add(bv, r)) == Add(Add(sb, bv), Add(q, r))
  {
  }

  /** The velocities of the first a nodes: those of the first a - 1, plus
      node a - 1's. */
  lemma SumVelLast(nodes: seq<Node>, a: nat)
    requires 0 < a <= |nodes|
    ensures SumVel(nodes[..a]) == Add(SumVel(nodes[..a - 1]), nodes[a - 1].vel)
  {
    assert nodes[..a][..a - 1] == nodes[..a - 1];
  }

  /** Exact-mode repulsion keeps the sum of the velocities: whatever one node
      gains from another, the other loses. */
  lemma ExactKeepsMomentum(m: MathOps, before: seq<Node>, after: seq<Node>)
    requires NormalizeOdd(m) && |after| == |before|
    requires forall v | 0 <= v < |before| :: after[v].vel == Add(before[v].vel, Repulsion(m, before, v, |before|))
    ensures SumVel(after) == SumVel(before)
  {
    SumVelShift(m, before, after, |before|);
    RepulsionBalanced(m, before);
    assert after[..|after|] == after && before[..|before|] == before;
  }

  /** The spring force of graph.go for an edge of offset `delta` between
      its endpoints, smaller endpoint degree `s` and weight `value`: along
      the edge, of size (length - 5) / s times the weight. */
  function Stretch(m: MathOps, delta: Vec2, s: real, value: real): Vec2
  {
    Scale(m.normalize(delta), m.divide(Length(m, delta) - 5.0, s) * value)
  }

  /** The spring force along an edge: none for an edge shorter than 0.1,
      otherwise its Stretch. */
  function Spring(m: MathOps, nodes: seq<Node>, e: Edge): Vec2
    requires 0 <= e.source < |nodes| && 0 <= e.target < |nodes|
  {
    var from := nodes[e.source];
    var to := nodes[e.target];
    var delta := Sub(from.pos, to.pos);
    if Length(m, delta) < 0.1 then Zero else Stretch(m, delta, Min(from.degree, to.degree), e.value)
  }

  /** The opposite offset gives the opposite spring force. */
  lemma StretchOdd(m: MathOps, delta: Vec2, s: real, value: real)
    requires NormalizeOdd(m)
    ensures Length(m, Neg(delta)) == Length(m, delta)
    ensures Stretch(m, Neg(delta), s, value) == Neg(Stretch(m, delta, s, value))
  {
    assert LengthSqr(Neg(delta)) == LengthSqr(delta);
    assert m.normalize(Neg(delta)) == Neg(m.normalize(delta));
  }

  /** Reversing an edge reverses its spring: as the spring is subtracted at
      the source and added at the target, the direction of an edge does not
      change what it does. */
  lemma SpringReversed(m: MathOps, nodes: seq<Node>, e: Edge)
    requires NormalizeOdd(m) && 0 <= e.source < |nodes| && 0 <= e.target < |nodes|
    ensures Spring(m, nodes, e.(source := e.target, target := e.source)) == Neg(Spring(m, nodes, e))
  {
    var delta := Sub(nodes[e.source].pos, nodes[e.target].pos);
    assert Sub(nodes[e.target].pos, nodes[e.source].pos) == Neg(delta);
    StretchOdd(m, delta, Min(nodes[e.source].degree, nodes[e.target].degree), e.value);
    assert Min(nodes[e.target].degree, nodes[e.source].degree) == Min(nodes[e.source].degree, nodes[e.target].degree);
  }

  /** What the edges do to node v's velocity: each spring is subtracted at
      its source and added at its target. */
  function EdgeNet(m: MathOps, nodes: seq<Node>, edges: seq<Edge>, v: int): Vec2
    requires EndpointsBelow(edges, |nodes|)
  {
    if edges == [] then Zero
    else
      var e := edges[|edges| - 1];
      var dv := Spring(m, nodes, e);
      Add(EdgeNet(m, nodes, edges[..|edges| - 1], v),
          Sub(if e.target == v then dv else Zero, if e.source == v then dv else Zero))
  }

  /** The velocities of `nodes`, summed. */
  function SumVel(nodes: seq<Node>): Vec2
  {
    if nodes == [] then Zero else Add(SumVel(nodes[..|nodes| - 1]), nodes[|nodes| - 1].vel)
  }

  /** Changing one node's velocity changes the sum by the difference. */
  lemma {:induction false} SumVelUpdate(nodes: seq<Node>, v: nat, vel: Vec2)
    requires v < |nodes|
    ensures SumVel(nodes[v := nodes[v].(vel := vel)]) == Add(Sub(SumVel(nodes), nodes[v].vel), vel)
  {
    var n := |nodes| - 1;
    var nodes' := nodes[v := nodes[v].(vel := vel)];
    if v < n {
      assert nodes'[..n] == nodes[..n][v := nodes[v].(vel := vel)];
      SumVelUpdate(nodes[..n], v, vel);
    } else {
      assert nodes'[..n] == nodes[..n];
    }
  }

  /** nodes is n0 after the first k edges: each velocity has gained what
      those edges do to it, and nothing else has changed. */
  ghost predicate EdgesApplied(m: MathOps, n0: seq<Node>, nodes: seq<Node>, edges: seq<Edge>, k: nat)
  {
    && |nodes| == |n0| && k <= |edges| && EndpointsBelow(edges, |n0|)
    && forall v | 0 <= v < |nodes| :: nodes[v] == n0[v].(vel := Add(n0[v].vel, EdgeNet(m, n0, edges[..k], v)))
  }

  /** Edge k taken from its source and given to its target: one more edge
      applied. */
  lemma EdgeStep(m: MathOps, n0: seq<Node>, nodes: seq<Node>, edges: seq<Edge>, k: nat)
    requires EdgesApplied(m, n0, nodes, edges, k) && k < |edges|
    ensures var e, dv := edges[k], Spring(m, n0, edges[k]);
            var half := nodes[e.source := nodes[e.source].(vel := Sub(nodes[e.source].vel, dv))];
            var next := half[e.target := half[e.target].(vel := Add(half[e.target].vel, dv))];
            EdgesApplied(m, n0, next, edges, k + 1)
  {
    var e, dv := edges[k], Spring(m, n0, edges[k]);
    var half := nodes[e.source := nodes[e.source].(vel := Sub(nodes[e.source].vel, dv))];
    var next := half[e.target := half[e.target].(vel := Add(half[e.target].vel, dv))];
    assert edges[..k + 1][..k] == edges[..k] && edges[..k + 1][k] == e;
    assert EndpointsBelow(edges[..k + 1], |n0|);
    forall v | 0 <= v < |next|
      ensures next[v] == n0[v].(vel := Add(n0[v].vel, EdgeNet(m, n0, edges[..k + 1], v)))
    {
      Transfer(n0[v].vel, EdgeNet(m, n0, edges[..k], v), dv, e.source == v, e.target == v);
    }
  }

  /** Taking dv from one node's velocity and giving it to another's keeps
      the velocities' sum. */
  lemma TransferKeepsSum(nodes: seq<Node>, a: nat, b: nat, dv: Vec2)
    requires a < |nodes| && b < |nodes|
    ensures var half := nodes[a := nodes[a].(vel := Sub(nodes[a].vel, dv))];
            SumVel(half[b := half[b].(vel := Add(half[b].vel, dv))]) == SumVel(nodes)
  {
    var half := nodes[a := nodes[a].(vel := Sub(nodes[a].vel, dv))];
    SumVelUpdate(nodes, a, Sub(nodes[a].vel, dv));
    SumVelUpdate(half, b, Add(half[b].vel, dv));
  }

  /** The velocity arithmetic of one edge at one node: taking dv away if
      the node is the source, then adding it if it is the target. */
  lemma Transfer(vel: Vec2, net: Vec2, dv: Vec2, isSource: bool, isTarget: bool)
    ensures var taken := if isSource then Sub(Add(vel, net), dv) else Add(vel, net);
            (if isTarget then Add(taken, dv) else taken)
              == Add(vel, Add(net, Sub(if isTarget then dv else Zero, if isSource then dv else Zero)))
  {
  }

  /** An edge shorter than 0.1 is skipped: one more edge applied, nothing
      changed. */
  lemma EdgeSkip(m: MathOps, n0: seq<Node>, nodes: seq<Node>, edges: seq<Edge>, k: nat)
    requires EdgesApplied(m, n0, nodes, edges, k) && k < |edges| && Spring(m, n0, edges[k]) == Zero
    ensures EdgesApplied(m, n0, nodes, edges, k + 1)
  {
    assert edges[..k + 1][..k] == edges[..k] && edges[..k + 1][k] == edges[k];
    assert EndpointsBelow(edges[..k + 1], |n0|);
  }

  /** A spring depends on its endpoints' positions and degrees only. */
  lemma SpringFrame(m: MathOps, a: seq<Node>, b: seq<Node>, e: Edge)
    requires SamePlaces(a, b) && 0 <= e.source < |a| && 0 <= e.target < |a|
    ensures Spring(m, a, e) == Spring(m, b, e)
  {
    assert a[e.source].pos == b[e.source].pos && a[e.source].degree == b[e.source].degree;
    assert a[e.target].pos == b[e.target].pos && a[e.target].degree == b[e.target].degree;
  }

  /** The springs depend on positions and degrees only. */
  lemma {:induction false} EdgeNetFrame(m: MathOps, a: seq<Node>, b: seq<Node>, edges: seq<Edge>, v: int)
    requires SamePlaces(a, b) && EndpointsBelow(edges, |a|)
    ensures EdgeNet(m, a, edges, v) == EdgeNet(m, b, edges, v)
  {
    if edges != [] {
      var n := |edges| - 1;
      SpringFrame(m, a, b, edges[n]);
      assert EndpointsBelow(edges[..n], |a|);
      EdgeNetFrame(m, a, b, edges[..n], v);
    }
  }

  /** A node after integrate: velocity clamped to the temperature, moved by
      velocity times the time step, position clamped to ten screens each
      way. */
  function Integrated(node: Node, deltaTime: real, temperature: real, config: Config): (r: Node)
    ensures r.name == node.name && r.group == node.group && r.degree == node.degree
    ensures 0.0 <= temperature ==> -temperature <= r.vel.x <= temperature && -temperature <= r.vel.y <= temperature
    ensures -temperature <= node.vel.x <= temperature && -temperature <= node.vel.y <= temperature ==> r.vel == node.vel
    ensures 0 <= config.screenWidth ==>
              -10.0 * config.screenWidth as real <= r.pos.x <= 10.0 * config.screenWidth as real
    ensures 0 <= config.screenHeight ==>
              -10.0 * config.screenHeight as real <= r.pos.y <= 10.0 * config.screenHeight as real
  {
    var vel := ClampVec(node.vel, Vec2(-temperature, -temperature), Vec2(temperature, temperature));
    var w := config.screenWidth as real;
    var h := config.screenHeight as real;
    var pos := ClampVec(Add(node.pos, Scale(vel, deltaTime)), Vec2(-10.0 * w, -10.0 * h), Vec2(10.0 * w, 10.0 * h));
    node.(vel := vel, pos := pos)
  }

  /** The body a node puts in the quadtree. */
  function BodyOf(node: Node): QuadTree.Body
  {
    QuadTree.Body(node.pos, node.degree)
  }

  function Bodies(nodes: seq<Node>): multiset<QuadTree.Body>
  {
    if nodes == [] then multiset{} else Bodies(nodes[..|nodes| - 1]) + multiset{BodyOf(nodes[|nodes| - 1])}
  }

  /** The bodies of the nodes whose offer to the tree was accepted. */
  function HeldBodies(nodes: seq<Node>, accepted: seq<bool>): multiset<QuadTree.Body>
    requires |accepted| == |nodes|
  {
    if nodes == [] then multiset{}
    else
      var n := |nodes| - 1;
      HeldBodies(nodes[..n], accepted[..n]) + if accepted[n] then multiset{BodyOf(nodes[n])} else multiset{}
  }

  /** The tree holds only bodies of the nodes offered to it. */
  lemma {:induction false} HeldWithin(nodes: seq<Node>, accepted: seq<bool>)
    requires |accepted| == |nodes|
    ensures HeldBodies(nodes, accepted) <= Bodies(nodes)
  {
    if nodes != [] {
      var n := |nodes| - 1;
      HeldWithin(nodes[..n], accepted[..n]);
    }
  }

  /** When every offer is accepted, the tree holds the body of every node. */
  lemma {:induction false} HeldAll(nodes: seq<Node>, accepted: seq<bool>)
    requires |accepted| == |nodes| && forall v | 0 <= v < |accepted| :: accepted[v]
    ensures HeldBodies(nodes, accepted) == Bodies(nodes)
  {
    if nodes != [] {
      var n := |nodes| - 1;
      assert accepted[n];
      HeldAll(nodes[..n], accepted[..n]);
    }
  }

  /** The held bodies depend on positions and degrees only. */
  lemma {:induction false} HeldBodiesFrame(a: seq<Node>, b: seq<Node>, accepted: seq<bool>)
    requires SamePlaces(a, b) && |accepted| == |a|
    ensures HeldBodies(a, accepted) == HeldBodies(b, accepted)
  {
    if a != [] {
      var n := |a| - 1;
      assert BodyOf(a[n]) == BodyOf(b[n]);
      HeldBodiesFrame(a[..n], b[..n], accepted[..n]);
    }
  }

  /** One more offer, answered `ok`. */
  lemma HeldStep(nodes: seq<Node>, accepted: seq<bool>, i: nat, ok: bool)
    requires |accepted| == i < |nodes|
    ensures HeldBodies(nodes[..i + 1], accepted + [ok])
         == HeldBodies(nodes[..i], accepted) + if ok then multiset{BodyOf(nodes[i])} else multiset{}
  {
    assert nodes[..i + 1][..i] == nodes[..i];
    assert (accepted + [ok])[..i] == accepted;
  }

  /** BuildTree's loop state: the first |accepted| nodes have been offered,
      the tree holds exactly the accepted ones, and each of them lies in
      the root box r. */
  ghost predicate Building(cells: seq<QuadTree.Cell>, nodes: seq<Node>, accepted: seq<bool>, r: QuadTree.Rect)
  {
    && |accepted| <= |nodes|
    && QuadTree.AllBodies(cells) == HeldBodies(nodes[..|accepted|], accepted)
    && forall v | 0 <= v < |accepted| && accepted[v] :: QuadTree.Contains(r, nodes[v].pos)
  }

  /** Offering the next node keeps the loop state. */
  lemma BuildingStep(cells: seq<QuadTree.Cell>, cells': seq<QuadTree.Cell>, nodes: seq<Node>, accepted: seq<bool>,
                     r: QuadTree.Rect, ok: bool)
    requires Building(cells, nodes, accepted, r) && |accepted| < |nodes|
    requires QuadTree.AllBodies(cells') ==
               QuadTree.AllBodies(cells) + if ok then multiset{BodyOf(nodes[|accepted|])} else multiset{}
    requires ok ==> QuadTree.Contains(r, nodes[|accepted|].pos)
    ensures Building(cells', nodes, accepted + [ok], r)
  {
    var grown := accepted + [ok];
    assert |grown| == |accepted| + 1;
    HeldStep(nodes, accepted, |accepted|, ok);
    BoxStep(nodes, accepted, r, ok);
  }

  /** A node accepted into a tree of root box r lies in r. */
  lemma BoxStep(nodes: seq<Node>, accepted: seq<bool>, r: QuadTree.Rect, ok: bool)
    requires |accepted| < |nodes| && forall v | 0 <= v < |accepted| && accepted[v] :: QuadTree.Contains(r, nodes[v].pos)
    requires ok ==> QuadTree.Contains(r, nodes[|accepted|].pos)
    ensures forall v | 0 <= v < |accepted| + 1 && (accepted + [ok])[v] :: QuadTree.Contains(r, nodes[v].pos)
  {
    forall v | 0 <= v < |accepted| + 1 && (accepted + [ok])[v]
      ensures QuadTree.Contains(r, nodes[v].pos)
    {
      if v < |accepted| {
        assert (accepted + [ok])[v] == accepted[v];
      }
    }
  }

  /** The repulsion on node v in one tick: the weighed tree's force on its
      body in Barnes-Hut mode, the pushes of all the other nodes otherwise. */
  function Repelled(m: MathOps, config: Config, tree: seq<QuadTree.Cell>, nodes: seq<Node>, v: nat): Vec2
    requires v < |nodes| && (config.barnesHut ==> QuadTree.Ordered(tree) && 0 < |tree|)
  {
    if config.barnesHut then QuadTree.CalculateForce(m, tree, 0, BodyOf(nodes[v]), config.theta)
    else Repulsion(m, nodes, v, |nodes|)
  }

  /** With theta <= 0 (and square roots non-negative) a Barnes-Hut tick
      repels a node exactly as the pushes of all the bodies in the tree's
      leaves would. */
  lemma RepelledWithoutTheta(m: MathOps, config: Config, tree: seq<QuadTree.Cell>, nodes: seq<Node>, v: nat)
    requires config.barnesHut && QuadTree.Ordered(tree) && 0 < |tree| && QuadTree.NonNegWidths(tree)
    requires SqrtNonNegative(m) && config.theta <= 0.0 && v < |nodes|
    ensures Repelled(m, config, tree, nodes, v) == QuadTree.LeafForce(m, BodyOf(nodes[v]), QuadTree.LeafBodies(tree, 0))
  {
    QuadTree.ExactWithoutTheta(m, tree, 0, BodyOf(nodes[v]), config.theta);
  }

  /** Node v after one tick from `nodes`: its start velocity plus the
      repulsion on it plus what the edges do to it, then integrated. */
  function Ticked(m: MathOps, config: Config, tree: seq<QuadTree.Cell>, nodes: seq<Node>, edges: seq<Edge>,
                  v: nat, deltaTime: real, temperature: real): (r: Node)
    requires v < |nodes| && EndpointsBelow(edges, |nodes|)
    requires config.barnesHut ==> QuadTree.Ordered(tree) && 0 < |tree|
    ensures r.name == nodes[v].name && r.group == nodes[v].group && r.degree == nodes[v].degree
    ensures 0.0 <= temperature ==> -temperature <= r.vel.x <= temperature && -temperature <= r.vel.y <= temperature
    ensures 0 <= config.screenWidth && 0 <= config.screenHeight ==>
              && -10.0 * config.screenWidth as real <= r.pos.x <= 10.0 * config.screenWidth as real
              && -10.0 * config.screenHeight as real <= r.pos.y <= 10.0 * config.screenHeight as real
  {
    var vel := Add(Add(StartVelocity(config, nodes[v].pos), Repelled(m, config, tree, nodes, v)),
                   EdgeNet(m, nodes, edges, v));
    Integrated(nodes[v].(vel := vel), deltaTime, temperature, config)
  }

  /** The four loops of applyForce, one after the other, give every node
      its Ticked self. */
  lemma TickSteps(m: MathOps, config: Config, tree: seq<QuadTree.Cell>, edges: seq<Edge>,
                  deltaTime: real, temperature: real, n0: seq<Node>, n1: seq<Node>, n2: seq<Node>, n3: seq<Node>, n4: seq<Node>)
    requires EndpointsBelow(edges, |n0|) && (config.barnesHut ==> QuadTree.Ordered(tree) && 0 < |tree|)
    requires |n1| == |n0| && forall v | 0 <= v < |n1| :: n1[v] == n0[v].(vel := StartVelocity(config, n0[v].pos))
    requires |n2| == |n0| && forall v | 0 <= v < |n2| :: n2[v] == n1[v].(vel := Add(n1[v].vel, Repelled(m, config, tree, n1, v)))
    requires |n3| == |n0| && forall v | 0 <= v < |n3| :: n3[v] == n2[v].(vel := Add(n2[v].vel, EdgeNet(m, n2, edges, v)))
    requires |n4| == |n0| && forall v | 0 <= v < |n4| :: n4[v] == Integrated(n3[v], deltaTime, temperature, config)
    ensures forall v | 0 <= v < |n4| :: n4[v] == Ticked(m, config, tree, n0, edges, v, deltaTime, temperature)
  {
    assert SamePlaces(n1, n0);
    assert SamePlaces(n2, n0);
    forall v | 0 <= v < |n4|
      ensures n4[v] == Ticked(m, config, tree, n0, edges, v, deltaTime, temperature)
    {
      EdgeNetFrame(m, n2, n0, edges, v);
      if config.barnesHut {
        assert BodyOf(n1[v]) == BodyOf(n0[v]);
      } else {
        RepulsionFrame(m, n1, n0, v, |n0|);
      }
    }
  }

  /** The root box of the Barnes-Hut tree: one screen each way of the origin. */
  function ScreenRect(config: Config): QuadTree.Rect
  {
    var w := config.screenWidth as real;
    var h := config.screenHeight as real;
    QuadTree.Rect(-w, -h, 2.0 * w, 2.0 * h)
  }

  /** The arena left by offering the bodies of `nodes`, in order, to the
      root of cs: the fold of Insert that BuildTree's loop performs. */
  function Planted(cs: seq<QuadTree.Cell>, capacity: nat, depth: nat, nodes: seq<Node>): seq<QuadTree.Cell>
  {
    if nodes == [] then cs
    else
      var n := |nodes| - 1;
      QuadTree.Inserted(Planted(cs, capacity, depth, nodes[..n]), capacity, 0, BodyOf(nodes[n]), depth).0
  }

  /** The tree Barnes-Hut mode builds from `nodes`, before it is weighed. */
  function Built(config: Config, capacity: nat, depth: nat, nodes: seq<Node>): seq<QuadTree.Cell>
  {
    Planted([QuadTree.NewQuadTree(ScreenRect(config))], capacity, depth, nodes)
  }

  /** The tree depends on positions and degrees only. */
  lemma {:induction false} PlantedFrame(cs: seq<QuadTree.Cell>, capacity: nat, depth: nat, a: seq<Node>, b: seq<Node>)
    requires SamePlaces(a, b)
    ensures Planted(cs, capacity, depth, a) == Planted(cs, capacity, depth, b)
  {
    if a != [] {
      var n := |a| - 1;
      assert BodyOf(a[n]) == BodyOf(b[n]);
      PlantedFrame(cs, capacity, depth, a[..n], b[..n]);
    }
  }

  /** The bodies of `nodes`, in order. */
  function BodyList(nodes: seq<Node>): (bs: seq<QuadTree.Body>)
    ensures |bs| == |nodes| && forall v | 0 <= v < |nodes| :: bs[v] == BodyOf(nodes[v])
  {
    if nodes == [] then [] else BodyList(nodes[..|nodes| - 1]) + [BodyOf(nodes[|nodes| - 1])]
  }

  /** With no more nodes than `capacity`, all inside the root box r, the
      root never fills up: the tree is the root alone, holding every body
      in order. */
  lemma {:induction false} PlantedRoom(r: QuadTree.Rect, capacity: nat, depth: nat, nodes: seq<Node>)
    requires |nodes| <= capacity && forall v | 0 <= v < |nodes| :: QuadTree.Contains(r, nodes[v].pos)
    ensures Planted([QuadTree.NewQuadTree(r)], capacity, depth, nodes) == [QuadTree.NewQuadTree(r).(bodies := BodyList(nodes))]
  {
    if nodes != [] {
      var n := |nodes| - 1;
      var b := BodyOf(nodes[n]);
      PlantedRoom(r, capacity, depth, nodes[..n]);
      var cs := [QuadTree.NewQuadTree(r).(bodies := BodyList(nodes[..n]))];
      assert QuadTree.Contains(cs[0].region, b.pos);
      assert cs[0 := cs[0].(bodies := cs[0].bodies + [b])] == [QuadTree.NewQuadTree(r).(bodies := BodyList(nodes))];
    }
  }

  /** What Barnes-Hut mode leaves in `tree`: the tree built from the bodies
      of `nodes`, weighed from the root. It is a quadtree of `capacity`
      with parent links `parent`, over the screen box, with non-negative
      widths when the screen width is non-negative, and it holds exactly
      the bodies of the nodes `accepted` marks, all inside the box. */
  ghost predicate BarnesHutTree(config: Config, capacity: nat, depth: nat, nodes: seq<Node>,
                                tree: seq<QuadTree.Cell>, parent: seq<nat>, accepted: seq<bool>)
  {
    && QuadTree.WeighedTree(tree) && 0 < |tree| && tree[0].region == ScreenRect(config)
    && QuadTree.Inv(tree, parent, capacity)
    && (0 <= config.screenWidth ==> QuadTree.NonNegWidths(tree))
    && QuadTree.Ordered(Built(config, capacity, depth, nodes))
    && tree == QuadTree.WeighAll(Built(config, capacity, depth, nodes))
    && |accepted| == |nodes| && QuadTree.AllBodies(tree) == HeldBodies(nodes, accepted)
    && forall v | 0 <= v < |nodes| && accepted[v] :: QuadTree.Contains(ScreenRect(config), nodes[v].pos)
  }

  /** The Barnes-Hut tree depends on positions and degrees only. */
  lemma BarnesHutTreeFrame(config: Config, capacity: nat, depth: nat, a: seq<Node>, b: seq<Node>,
                           tree: seq<QuadTree.Cell>, parent: seq<nat>, accepted: seq<bool>)
    requires SamePlaces(a, b) && BarnesHutTree(config, capacity, depth, a, tree, parent, accepted)
    ensures BarnesHutTree(config, capacity, depth, b, tree, parent, accepted)
  {
    HeldBodiesFrame(a, b, accepted);
    PlantedFrame([QuadTree.NewQuadTree(ScreenRect(config))], capacity, depth, a, b);
  }

  /** With no more nodes than `capacity`, all inside the screen box, a
      Barnes-Hut tick repels every node by the exact pushes of all the
      bodies, whatever theta: the tree is one leaf holding them all. */
  lemma FewNodesExact(m: MathOps, config: Config, capacity: nat, depth: nat, nodes: seq<Node>,
                      tree: seq<QuadTree.Cell>, parent: seq<nat>, accepted: seq<bool>, v: nat)
    requires config.barnesHut && BarnesHutTree(config, capacity, depth, nodes, tree, parent, accepted)
    requires |nodes| <= capacity && forall u | 0 <= u < |nodes| :: QuadTree.Contains(ScreenRect(config), nodes[u].pos)
    requires v < |nodes|
    ensures Repelled(m, config, tree, nodes, v) == QuadTree.LeafForce(m, BodyOf(nodes[v]), BodyList(nodes))
  {
    PlantedRoom(ScreenRect(config), capacity, depth, nodes);
    var built := Built(config, capacity, depth, nodes);
    assert tree[0] == QuadTree.Weighed(built, 0);
    assert tree[0].children == [] && tree[0].bodies == BodyList(nodes);
  }

  /** `qt.Insert(node)` from the root, as BuildTree's loop calls it: the
      tree stays valid and unweighed, keeps its root box, and gains the
      body exactly when the answer is true, which needs the body inside
      the root box. */
  method Offer(qt: QuadTree.Tree, b: QuadTree.Body, depth: nat) returns (ok: bool)
    requires qt.Valid() && forall j | 0 <= j < |qt.cells| :: QuadTree.Unweighed(qt.cells, j)
    modifies qt
    ensures qt.Valid() && qt.cells[0].region == old(qt.cells[0].region)
    ensures forall j | 0 <= j < |qt.cells| :: QuadTree.Unweighed(qt.cells, j)
    ensures ok ==> QuadTree.Contains(qt.cells[0].region, b.pos)
    ensures QuadTree.AllBodies(qt.cells) == QuadTree.AllBodies(old(qt.cells)) + if ok then multiset{b} else multiset{}
    ensures (qt.cells, ok) == QuadTree.Inserted(old(qt.cells), qt.capacity, 0, b, depth)
  {
    ghost var before := qt.cells;
    ghost var beforeParent := qt.parent;
    ghost var at;
    ok, at := qt.Insert(0, b, depth);
    QuadTree.GrowsUnweighed(before, qt.cells, beforeParent, qt.parent);
    assert QuadTree.Kept(before, qt.cells, 0);
  }

  class Graph {
    var nodes: seq<Node>
    var edges: seq<Edge>
    var totalDegree: real

    constructor (nodes: seq<Node>, edges: seq<Edge>, totalDegree: real)
      ensures this.nodes == nodes && this.edges == edges && this.totalDegree == totalDegree
    {
      this.nodes := nodes;
      this.edges := edges;
      this.totalDegree := totalDegree;
    }

    /** applyForce: one tick of the layout. Velocities start afresh, the
        nodes repel (by the quadtree or pair by pair), the edges pull, and
        every node moves by its clamped velocity into the clamped box. */
    method ApplyForce(deltaTime: real, temperature: real, config: Config, m: MathOps, capacity: nat, depth: nat)
      returns (ghost tree: seq<QuadTree.Cell>, ghost parent: seq<nat>, ghost accepted: seq<bool>)
      requires EndpointsBelow(edges, |nodes|) && 1 <= capacity
      modifies this
      ensures edges == old(edges) && totalDegree == old(totalDegree) && |nodes| == old(|nodes|)
      ensures config.barnesHut ==> BarnesHutTree(config, capacity, depth, old(nodes), tree, parent, accepted)
      ensures forall v | 0 <= v < |nodes| ::
                nodes[v] == Ticked(m, config, tree, old(nodes), edges, v, deltaTime, temperature)
    {
      ghost var n0 := nodes;
      ResetVelocities(config);
      ghost var n1 := nodes;
      tree, parent, accepted := Repel(config, m, capacity, depth);
      ghost var n2 := nodes;
      EdgeAttraction(m);
      ghost var n3 := nodes;
      Integrate(deltaTime, temperature, config);
      TickSteps(m, config, tree, edges, deltaTime, temperature, n0, n1, n2, n3, nodes);
      if config.barnesHut {
        assert SamePlaces(n1, n0);
        BarnesHutTreeFrame(config, capacity, depth, n1, n0, tree, parent, accepted);
      }
    }

    /** The repulsion step of applyForce: the quadtree's forces in
        Barnes-Hut mode, the exact pushes otherwise, each added to every
        node's velocity. Returns the weighed tree and which nodes it
        accepted. */
    method Repel(config: Config, m: MathOps, capacity: nat, depth: nat)
      returns (ghost tree: seq<QuadTree.Cell>, ghost parent: seq<nat>, ghost accepted: seq<bool>)
      requires 1 <= capacity
      modifies this
      ensures edges == old(edges) && totalDegree == old(totalDegree) && |nodes| == old(|nodes|)
      ensures config.barnesHut ==> BarnesHutTree(config, capacity, depth, old(nodes), tree, parent, accepted)
      ensures forall v | 0 <= v < |nodes| ::
                nodes[v] == old(nodes[v]).(vel := Add(old(nodes[v].vel), Repelled(m, config, tree, old(nodes), v)))
    {
      if config.barnesHut {
        var t;
        ghost var links, held;
        t, links, held := BarnesHutRepulsion(config, m, capacity, depth);
        tree, parent, accepted := t, links, held;
      } else {
        ExactRepulsion(m);
        tree, parent, accepted := [], [], [];
      }
    }

    /** The first loop of applyForce: every velocity overwritten by
        StartVelocity, whatever it was before. */
    method ResetVelocities(config: Config)
      modifies this
      ensures edges == old(edges) && totalDegree == old(totalDegree) && |nodes| == old(|nodes|)
      ensures forall v | 0 <= v < |nodes| ::
                nodes[v] == old(nodes[v]).(vel := StartVelocity(config, old(nodes[v].pos)))
    {
      var i := 0;
      while i < |nodes|
        invariant i <= |nodes| == |old(nodes)| && edges == old(edges) && totalDegree == old(totalDegree)
        invariant forall v | 0 <= v < |nodes| ::
                    nodes[v] == if v < i then old(nodes[v]).(vel := StartVelocity(config, old(nodes[v].pos))) else old(nodes[v])
      {
        if config.gravity {
          var center := Vec2(config.screenWidth as real / 2.0, config.screenHeight as real / 2.0);
          var delta := Sub(center, nodes[i].pos);
          nodes := nodes[i := nodes[i].(vel := Scale(delta, config.gravityStrength))];
        } else {
          nodes := nodes[i := nodes[i].(vel := Zero)];
        }
        i := i + 1;
      }
    }

    /** applyForce's exact mode: each node's velocity gains the pushes of
        all the other nodes. */
    method ExactRepulsion(m: MathOps)
      modifies this
      ensures edges == old(edges) && totalDegree == old(totalDegree) && |nodes| == old(|nodes|)
      ensures forall v | 0 <= v < |nodes| ::
                nodes[v] == old(nodes[v]).(vel := Add(old(nodes[v].vel), Repulsion(m, old(nodes), v, |nodes|)))
    {
      var i := 0;
      while i < |nodes|
        invariant i <= |nodes| == |old(nodes)| && edges == old(edges) && totalDegree == old(totalDegree)
        invariant forall v | 0 <= v < |nodes| ::
                    nodes[v] == if v < i then old(nodes[v]).(vel := Add(old(nodes[v].vel), Repulsion(m, old(nodes), v, |nodes|)))
                                else old(nodes[v])
      {
        ghost var before := nodes;
        PushAll(m, i);
        RepulsionFrame(m, before, old(nodes), i, |nodes|);
        i := i + 1;
      }
    }

    /** The inner loop of exact mode: the pushes of every other node added,
        in order, to node i's velocity. */
    method PushAll(m: MathOps, i: nat)
      requires i < |nodes|
      modifies this
      ensures edges == old(edges) && totalDegree == old(totalDegree) && |nodes| == old(|nodes|)
      ensures nodes == old(nodes)[i := old(nodes[i]).(vel := Add(old(nodes[i].vel), Repulsion(m, old(nodes), i, |nodes|)))]
    {
      var j := 0;
      while j < |nodes|
        invariant j <= |nodes| == |old(nodes)| && edges == old(edges) && totalDegree == old(totalDegree)
        invariant nodes == old(nodes)[i := old(nodes[i]).(vel := Add(old(nodes[i].vel), Repulsion(m, old(nodes), i, j)))]
      {
        ghost var pushed := Repulsion(m, old(nodes), i, j);
        if i != j {
          var node := nodes[i];
          var other := nodes[j];
          assert other == old(nodes[j]);
          var delta := Sub(node.pos, other.pos);
          var dist := LengthSqr(delta);
          if dist >= 0.01 {
            var dv := QuadTree.Push(m, BodyOf(node), other.pos, other.degree);
            nodes := nodes[i := node.(vel := Add(node.vel, dv))];
          } else {
            assert Add(pushed, PairPush(m, old(nodes), i, j)) == pushed;
          }
        } else {
          assert Add(pushed, PairPush(m, old(nodes), i, j)) == pushed;
        }
        j := j + 1;
      }
    }

    /** applyForce's Barnes-Hut mode: a quadtree over one screen each way,
        every node offered to it (a node it refuses is dropped), masses
        computed, and each node's velocity given the tree's force on it.
        Returns the weighed tree and which nodes it accepted. */
    method BarnesHutRepulsion(config: Config, m: MathOps, capacity: nat, depth: nat)
      returns (tree: seq<QuadTree.Cell>, ghost parent: seq<nat>, ghost accepted: seq<bool>)
      requires 1 <= capacity
      modifies this
      ensures edges == old(edges) && totalDegree == old(totalDegree) && |nodes| == old(|nodes|)
      ensures QuadTree.WeighedTree(tree) && 0 < |tree| && tree[0].region == ScreenRect(config)
      ensures QuadTree.Inv(tree, parent, capacity)
      ensures 0 <= config.screenWidth ==> QuadTree.NonNegWidths(tree)
      ensures |accepted| == |nodes| && QuadTree.AllBodies(tree) == HeldBodies(old(nodes), accepted)
      ensures forall v | 0 <= v < |nodes| && accepted[v] :: QuadTree.Contains(ScreenRect(config), old(nodes[v].pos))
      ensures QuadTree.AllBodies(tree) <= Bodies(old(nodes))
      ensures QuadTree.Ordered(Built(config, capacity, depth, old(nodes)))
      ensures tree == QuadTree.WeighAll(Built(config, capacity, depth, old(nodes)))
      ensures forall v | 0 <= v < |nodes| ::
                nodes[v] == old(nodes[v]).(vel := Add(old(nodes[v].vel),
                                                      QuadTree.CalculateForce(m, tree, 0, BodyOf(old(nodes[v])), config.theta)))
    {
      var qt;
      qt, accepted := BuildTree(config, capacity, depth);
      HeldWithin(nodes, accepted);
      ghost var built := qt.cells;
      parent := qt.parent;
      QuadTree.InvOrdered(built, parent, capacity);
      qt.CalculateMasses(0);
      tree := qt.cells;
      QuadTree.WeighedFromRoot(built, tree, parent, capacity);
      QuadTree.SameShapeBodies(built, tree);
      if 0 <= config.screenWidth {
        QuadTree.WidthsFromRoot(tree, parent, capacity);
      }
      ApplyTreeForce(m, tree, config.theta);
    }

    /** The tree Barnes-Hut mode builds: the root box of ScreenRect, and
        every node's body offered to it in turn, with the answer ignored.
        `accepted` records the answers: the tree holds exactly the bodies
        of the accepted nodes, and only a node inside the root box can be
        accepted. */
    method BuildTree(config: Config, capacity: nat, depth: nat) returns (qt: QuadTree.Tree, ghost accepted: seq<bool>)
      requires 1 <= capacity
      ensures fresh(qt) && qt.Valid() && qt.capacity == capacity && qt.cells[0].region == ScreenRect(config)
      ensures forall j | 0 <= j < |qt.cells| :: QuadTree.Unweighed(qt.cells, j)
      ensures |accepted| == |nodes| && QuadTree.AllBodies(qt.cells) == HeldBodies(nodes, accepted)
      ensures forall v | 0 <= v < |nodes| && accepted[v] :: QuadTree.Contains(ScreenRect(config), nodes[v].pos)
      ensures qt.cells == Built(config, capacity, depth, nodes)
    {
      qt := new QuadTree.Tree(ScreenRect(config), capacity);
      assert QuadTree.AllBodies(qt.cells) == QuadTree.BodiesBelow(qt.cells, 0) + multiset(qt.cells[0].bodies);
      accepted := [];
      var i := 0;
      while i < |nodes|
        invariant i <= |nodes| && fresh(qt)
        invariant qt.Valid() && qt.capacity == capacity && qt.cells[0].region == ScreenRect(config)
        invariant forall j | 0 <= j < |qt.cells| :: QuadTree.Unweighed(qt.cells, j)
        invariant |accepted| == i && Building(qt.cells, nodes, accepted, ScreenRect(config))
        invariant qt.cells == Built(config, capacity, depth, nodes[..i])
      {
        ghost var before := qt.cells;
        assert nodes[..i + 1][..i] == nodes[..i];
        var inserted := Offer(qt, BodyOf(nodes[i]), depth);
        BuildingStep(before, qt.cells, nodes, accepted, ScreenRect(config), inserted);
        accepted := accepted + [inserted];
        i := i + 1;
      }
      assert nodes[..i] == nodes;
    }

    /** The last loop of Barnes-Hut mode: each node's velocity gains the
        tree's force on its body. */
    method ApplyTreeForce(m: MathOps, tree: seq<QuadTree.Cell>, theta: real)
      requires QuadTree.Ordered(tree) && 0 < |tree|
      modifies this
      ensures edges == old(edges) && totalDegree == old(totalDegree) && |nodes| == old(|nodes|)
      ensures forall v | 0 <= v < |nodes| ::
                nodes[v] == old(nodes[v]).(vel := Add(old(nodes[v].vel), QuadTree.CalculateForce(m, tree, 0, BodyOf(old(nodes[v])), theta)))
    {
      var i := 0;
      while i < |nodes|
        invariant i <= |nodes| == |old(nodes)| && edges == old(edges) && totalDegree == old(totalDegree)
        invariant forall v | 0 <= v < |nodes| ::
                    nodes[v] == if v < i then old(nodes[v]).(vel := Add(old(nodes[v].vel), QuadTree.CalculateForce(m, tree, 0, BodyOf(old(nodes[v])), theta)))
                                else old(nodes[v])
      {
        var force := QuadTree.CalculateForce(m, tree, 0, BodyOf(nodes[i]), theta);
        nodes := nodes[i := nodes[i].(vel := Add(nodes[i].vel, force))];
        i := i + 1;
      }
    }

    /** applyForce's edge loop: each spring taken from its source's velocity
        and given to its target's, so the velocities' sum is unchanged. */
    method EdgeAttraction(m: MathOps)
      requires EndpointsBelow(edges, |nodes|)
      modifies this
      ensures edges == old(edges) && totalDegree == old(totalDegree) && |nodes| == old(|nodes|)
      ensures forall v | 0 <= v < |nodes| ::
                nodes[v] == old(nodes[v]).(vel := Add(old(nodes[v].vel), EdgeNet(m, old(nodes), edges, v)))
      ensures SumVel(nodes) == SumVel(old(nodes))
    {
      var k := 0;
      assert edges[..0] == [];
      while k < |edges|
        invariant edges == old(edges) && totalDegree == old(totalDegree)
        invariant EdgesApplied(m, old(nodes), nodes, edges, k)
        invariant SumVel(nodes) == SumVel(old(nodes))
      {
        var edge := edges[k];
        var from := nodes[edge.source];
        var to := nodes[edge.target];
        assert from.pos == old(nodes[edge.source].pos) && from.degree == old(nodes[edge.source].degree);
        assert to.pos == old(nodes[edge.target].pos) && to.degree == old(nodes[edge.target].degree);
        var delta := Sub(from.pos, to.pos);
        var dist := Length(m, delta);
        if dist >= 0.1 {
          var s := Min(from.degree, to.degree);
          var dv := Stretch(m, delta, s, edge.value);
          EdgeStep(m, old(nodes), nodes, edges, k);
          TransferKeepsSum(nodes, edge.source, edge.target, dv);
          nodes := nodes[edge.source := from.(vel := Sub(from.vel, dv))];
          nodes := nodes[edge.target := nodes[edge.target].(vel := Add(nodes[edge.target].vel, dv))];
        } else {
          EdgeSkip(m, old(nodes), nodes, edges, k);
        }
        k := k + 1;
      }
      assert edges[..k] == edges;
    }

    /** applyForce's last loop: every node Integrated. */
    method Integrate(deltaTime: real, temperature: real, config: Config)
      modifies this
      ensures edges == old(edges) && totalDegree == old(totalDegree) && |nodes| == old(|nodes|)
      ensures forall v | 0 <= v < |nodes| :: nodes[v] == Integrated(old(nodes[v]), deltaTime, temperature, config)
    {
      var i := 0;
      while i < |nodes|
        invariant i <= |nodes| == |old(nodes)| && edges == old(edges) && totalDegree == old(totalDegree)
        invariant forall v | 0 <= v < |nodes| ::
                    nodes[v] == if v < i then Integrated(old(nodes[v]), deltaTime, temperature, config) else old(nodes[v])
      {
        var node := nodes[i];
        var vel := ClampVec(node.vel, Vec2(-temperature, -temperature), Vec2(temperature, temperature));
        var pos := Add(node.pos, Scale(vel, deltaTime));
        var w := config.screenWidth as real;
        var h := config.screenHeight as real;
        pos := ClampVec(pos, Vec2(-10.0 * w, -10.0 * h), Vec2(10.0 * w, 10.0 * h));
        nodes := nodes[i := node.(vel := vel, pos := pos)];
        i := i + 1;
      }
    }
  }
}
