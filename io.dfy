/** ImportFromJson of io.go, the later revision of the import: the same
    colour and degree bookkeeping as graph.go's, no total degree, and a
    radius for every node derived from its degree. */
module Io {
  import opened Geometry
  import Graph

  /** io.go's revision of Node, which carries a radius. */
  datatype Node = Node(name: string, group: int, degree: real, radius: real, pos: Vec2, vel: Vec2)

  /** The radius of a node of degree d: the square root of d, but never
      below 2. */
  function Radius(m: MathOps, d: real): (r: real)
    ensures 2.0 <= r
    ensures r == 2.0 || r == m.sqrt(d)
    ensures 2.0 <= m.sqrt(d) ==> r == m.sqrt(d)
  {
    Max(m.sqrt(d), 2.0)
  }

  /** Every node of `nodes` is its `placed` self with the incident weight
      of `edges` added to its degree. Graph.DegreesFrom says the same of
      Graph's nodes; io.go's Node has a radius as well, so the predicate
      and its step lemma are repeated here for this module's Node. */
  ghost predicate DegreesFrom(placed: seq<Node>, nodes: seq<Node>, edges: seq<Graph.Edge>)
  {
    && |nodes| == |placed|
    && forall v | 0 <= v < |nodes| :: nodes[v] == placed[v].(degree := placed[v].degree + Graph.IncidentWeight(edges, v))
  }

  /** The edge loop's step: adding an edge's weight to both its endpoints'
      degrees accounts for one more edge (Graph.DegreesStep for this
      module's Node). */
  lemma DegreesStep(placed: seq<Node>, nodes: seq<Node>, edges: seq<Graph.Edge>, e: Graph.Edge)
    requires DegreesFrom(placed, nodes, edges) && 0 <= e.source < |nodes| && 0 <= e.target < |nodes|
    ensures var half := nodes[e.source := nodes[e.source].(degree := nodes[e.source].degree + e.value)];
            DegreesFrom(placed, half[e.target := half[e.target].(degree := half[e.target].degree + e.value)], edges + [e])
  {
    assert (edges + [e])[..|edges|] == edges;
  }

  /** ImportFromJson of io.go on what the decoder produced: each node at
      the position drawn for it, a colour entry per group, every zero
      weight made 1 and added to both endpoints' degrees, and every node's
      radius set from its final degree. */
  method ImportFromJson(m: MathOps, decoded: seq<Graph.JsonNode>, links: seq<Graph.Edge>, positions: seq<Vec2>)
    returns (nodes: seq<Node>, edges: seq<Graph.Edge>, colours: map<int, nat>)
    requires |positions| == |decoded| && Graph.EndpointsBelow(links, |decoded|)
    ensures |nodes| == |decoded| && |edges| == |links|
    ensures forall k | 0 <= k < |edges| :: edges[k] == links[k].(value := Graph.Weight(links[k].value))
    ensures forall v | 0 <= v < |nodes| ::
              var degree := Graph.IncidentWeight(edges, v);
              nodes[v] == Node(decoded[v].name, decoded[v].group, degree, Radius(m, degree), positions[v], Zero)
    ensures Graph.ColoursByGroup(decoded, colours)
  {
    var placed;
    placed, colours := PlaceNodes(decoded, positions);
    var weighed;
    weighed, edges := WeighEdges(placed, links);
    nodes := SetRadii(m, weighed);
  }

  /** The node loop: every node placed at its drawn position, and a colour
      entry created for each group not seen before. */
  method PlaceNodes(decoded: seq<Graph.JsonNode>, positions: seq<Vec2>) returns (nodes: seq<Node>, colours: map<int, nat>)
    requires |positions| == |decoded|
    ensures |nodes| == |decoded|
    ensures forall v | 0 <= v < |nodes| :: nodes[v] == Node(decoded[v].name, decoded[v].group, 0.0, 0.0, positions[v], Zero)
    ensures Graph.ColoursByGroup(decoded, colours)
  {
    nodes := [];
    colours := map[];
    var i := 0;
    while i < |decoded|
      invariant i <= |decoded| && |nodes| == i
      invariant forall v | 0 <= v < i :: nodes[v] == Node(decoded[v].name, decoded[v].group, 0.0, 0.0, positions[v], Zero)
      invariant Graph.ColoursByGroup(decoded[..i], colours)
    {
      nodes := nodes + [Node(decoded[i].name, decoded[i].group, 0.0, 0.0, positions[i], Zero)];
      Graph.ColoursStep(decoded, i, colours);
      if decoded[i].group !in colours {
        colours := colours[decoded[i].group := i];
      }
      i := i + 1;
    }
    assert decoded[..i] == decoded;
  }

  /** The edge loop: each zero weight made 1 and added to both endpoints'
      degrees; unlike graph.go's, no total is kept. */
  method WeighEdges(placed: seq<Node>, links: seq<Graph.Edge>) returns (nodes: seq<Node>, edges: seq<Graph.Edge>)
    requires Graph.EndpointsBelow(links, |placed|)
    ensures |edges| == |links|
    ensures forall k | 0 <= k < |edges| :: edges[k] == links[k].(value := Graph.Weight(links[k].value))
    ensures DegreesFrom(placed, nodes, edges)
  {
    nodes := placed;
    edges := [];
    var k := 0;
    while k < |links|
      invariant k <= |links| && |edges| == k
      invariant forall j | 0 <= j < k :: edges[j] == links[j].(value := Graph.Weight(links[j].value))
      invariant DegreesFrom(placed, nodes, edges)
    {
      var edge := links[k];
      if edge.value == 0.0 {
        edge := edge.(value := 1.0);
      }
      DegreesStep(placed, nodes, edges, edge);
      nodes := nodes[edge.source := nodes[edge.source].(degree := nodes[edge.source].degree + edge.value)];
      nodes := nodes[edge.target := nodes[edge.target].(degree := nodes[edge.target].degree + edge.value)];
      edges := edges + [edge];
      k := k + 1;
    }
  }

  /** The radius loop: every node's radius set from its degree, nothing
      else changed. */
  method SetRadii(m: MathOps, weighed: seq<Node>) returns (nodes: seq<Node>)
    ensures |nodes| == |weighed|
    ensures forall v | 0 <= v < |nodes| :: nodes[v] == weighed[v].(radius := Radius(m, weighed[v].degree))
    ensures forall v | 0 <= v < |nodes| :: 2.0 <= nodes[v].radius
  {
    nodes := weighed;
    var i := 0;
    while i < |nodes|
      invariant i <= |nodes| == |weighed|
      invariant forall v | 0 <= v < |nodes| ::
                  nodes[v] == if v < i then weighed[v].(radius := Radius(m, weighed[v].degree)) else weighed[v]
    {
      nodes := nodes[i := nodes[i].(radius := Max(m.sqrt(nodes[i].degree), 2.0))];
      i := i + 1;
    }
  }
}
