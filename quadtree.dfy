/** The Barnes-Hut quadtree of quadtree.go, kept as an arena: every tree node
    (a `Cell`) lives in one sequence, the root at index 0, and a cell's
    `children` are the indices of its four quadrants. */
module QuadTree {
  import opened Geometry

  /** Rect: a box with its top-left corner at (x, y). */
  datatype Rect = Rect(x: real, y: real, width: real, height: real)

  /** Rect.Contains: the closed box, inclusive on all four edges. */
  predicate Contains(r: Rect, pos: Vec2)
  {
    pos.x >= r.x && pos.x <= r.x + r.width && pos.y >= r.y && pos.y <= r.y + r.height
  }

  /** All four corners of a box of non-negative size, and so all four edges,
      belong to it. */
  lemma ContainsCorners(r: Rect)
    requires 0.0 <= r.width && 0.0 <= r.height
    ensures Contains(r, Vec2(r.x, r.y)) && Contains(r, Vec2(r.x + r.width, r.y))
    ensures Contains(r, Vec2(r.x, r.y + r.height)) && Contains(r, Vec2(r.x + r.width, r.y + r.height))
  {
  }

  /** A box of non-negative size holds exactly the points that clamping to
      its corners leaves in place; a box of negative width or height holds
      nothing. */
  lemma ContainsClamp(r: Rect, pos: Vec2)
    ensures 0.0 <= r.width && 0.0 <= r.height ==>
              (Contains(r, pos) <==> ClampVec(pos, Vec2(r.x, r.y), Vec2(r.x + r.width, r.y + r.height)) == pos)
    ensures r.width < 0.0 || r.height < 0.0 ==> !Contains(r, pos)
  {
  }

  /** What a tree cell keeps of a graph node: its position and its degree,
      which is its mass. */
  datatype Body = Body(pos: Vec2, degree: real)

  /** One QuadTree node. An empty `children` is Go's nil Children[0]. */
  datatype Cell = Cell(region: Rect, bodies: seq<Body>, children: seq<nat>, totalMass: real, center: Vec2)

  /** NewQuadTree: an empty leaf with mass 0 and centre (0, 0). */
  function NewQuadTree(boundary: Rect): Cell
  {
    Cell(boundary, [], [], 0.0, Zero)
  }

  /** A fresh cell on its own is an ordered tree with no bodies, already
      weighed: mass 0 and centre (0, 0) are what weighing it would give. */
  lemma NewLeafWeighed(boundary: Rect)
    ensures Ordered([NewQuadTree(boundary)]) && [NewQuadTree(boundary)][0].region == boundary
    ensures LeafBodies([NewQuadTree(boundary)], 0) == [] && WeighedTree([NewQuadTree(boundary)])
  {
    var cs := [NewQuadTree(boundary)];
    assert Layout(cs, 0);
    assert Mass(cs, 0) == 0.0 && Accumulated(cs, 0) == Zero;
  }

  /** Quadrant k of Subdivide: 0 top left, 1 top right, 2 bottom left,
      3 bottom right, each of half the width and half the height. */
  function Quadrant(r: Rect, k: nat): Rect
    requires k < 4
  {
    var midX := r.x + r.width / 2.0;
    var midY := r.y + r.height / 2.0;
    var halfWidth := r.width / 2.0;
    var halfHeight := r.height / 2.0;
    if k == 0 then Rect(r.x, r.y, halfWidth, halfHeight)
    else if k == 1 then Rect(midX, r.y, halfWidth, halfHeight)
    else if k == 2 then Rect(r.x, midY, halfWidth, halfHeight)
    else Rect(midX, midY, halfWidth, halfHeight)
  }

  /** Each quadrant has half its parent's width and height, and lies within
      a parent of non-negative size. */
  lemma QuadrantHalves(r: Rect, k: nat)
    requires k < 4
    ensures var q := Quadrant(r, k);
            q.width + q.width == r.width && q.height + q.height == r.height
    ensures var q := Quadrant(r, k);
            0.0 <= r.width && 0.0 <= r.height ==>
              && r.x <= q.x && q.x + q.width <= r.x + r.width
              && r.y <= q.y && q.y + q.height <= r.y + r.height
  {
  }

  /** The four closed quadrants cover their parent exactly. */
  lemma QuadrantsTile(r: Rect, pos: Vec2)
    ensures Contains(r, pos) <==> exists k :: 0 <= k < 4 && Contains(Quadrant(r, k), pos)
  {
    if Contains(r, pos) {
      var k := FirstQuadrant(r, pos);
      assert Contains(Quadrant(r, k), pos);
    }
  }

  /** The index of the first quadrant that contains `pos` (4 when none does):
      the child Subdivide hands a body to. */
  function FirstQuadrant(r: Rect, pos: Vec2): (k: nat)
    ensures k <= 4
    ensures k < 4 ==> Contains(Quadrant(r, k), pos)
    ensures forall j | 0 <= j < k && j < 4 :: !Contains(Quadrant(r, j), pos)
    ensures Contains(r, pos) <==> k < 4
  {
    if Contains(Quadrant(r, 0), pos) then 0
    else if Contains(Quadrant(r, 1), pos) then 1
    else if Contains(Quadrant(r, 2), pos) then 2
    else if Contains(Quadrant(r, 3), pos) then 3
    else 4
  }

  /** The bodies of `bs`, in order, that Subdivide moves into quadrant k. */
  function InQuadrant(r: Rect, bs: seq<Body>, k: nat): (qs: seq<Body>)
    ensures |qs| <= |bs|
  {
    if bs == [] then []
    else InQuadrant(r, bs[..|bs| - 1], k) + (if FirstQuadrant(r, bs[|bs| - 1].pos) == k then [bs[|bs| - 1]] else [])
  }

  lemma InQuadrantPush(r: Rect, bs: seq<Body>, b: Body, k: nat)
    ensures InQuadrant(r, bs + [b], k) == InQuadrant(r, bs, k) + if FirstQuadrant(r, b.pos) == k then [b] else []
  {
    assert (bs + [b])[..|bs|] == bs;
  }

  /** One step of Subdivide's loop: the fresh children n..n+3 hold the share
      of `bs` that each quadrant gets; handing `node` to its first quadrant
      gives each the share of `bs + [node]`. */
  lemma HandStep(cs: seq<Cell>, cs': seq<Cell>, n: nat, r: Rect, bs: seq<Body>, node: Body)
    requires n + 4 <= |cs| && FirstQuadrant(r, node.pos) < 4
    requires forall j | n <= j < n + 4 :: cs[j] == NewQuadTree(Quadrant(r, j - n)).(bodies := InQuadrant(r, bs, j - n))
    requires var m := n + FirstQuadrant(r, node.pos); cs' == cs[m := cs[m].(bodies := cs[m].bodies + [node])]
    ensures |cs'| == |cs| && forall j | 0 <= j < n :: cs'[j] == cs[j]
    ensures forall j | n <= j < n + 4 :: cs'[j] == NewQuadTree(Quadrant(r, j - n)).(bodies := InQuadrant(r, bs + [node], j - n))
  {
    forall j | n <= j < n + 4
      ensures cs'[j] == NewQuadTree(Quadrant(r, j - n)).(bodies := InQuadrant(r, bs + [node], j - n))
    {
      InQuadrantPush(r, bs, node, j - n);
    }
  }

  /** While fewer than `capacity` bodies have been handed out, every fresh
      child still has room. */
  lemma ShareRoom(cs: seq<Cell>, n: nat, r: Rect, bs: seq<Body>, capacity: nat)
    requires n + 4 <= |cs| && |bs| < capacity
    requires forall j | n <= j < n + 4 :: cs[j] == NewQuadTree(Quadrant(r, j - n)).(bodies := InQuadrant(r, bs, j - n))
    ensures forall j | n <= j < n + 4 ::
              cs[j].region == Quadrant(r, j - n) && cs[j].children == [] && |cs[j].bodies| < capacity
  {
  }

  /** Subdivide loses no body: the four shares of a list of bodies lying in
      r are, together, that list. */
  lemma {:induction false} InQuadrantPartition(r: Rect, bs: seq<Body>)
    requires forall b | b in bs :: Contains(r, b.pos)
    ensures multiset(bs) == multiset(InQuadrant(r, bs, 0)) + multiset(InQuadrant(r, bs, 1))
                            + multiset(InQuadrant(r, bs, 2)) + multiset(InQuadrant(r, bs, 3))
  {
    if bs != [] {
      var m := |bs| - 1;
      var front := bs[..m];
      assert bs == front + [bs[m]];
      assert bs[m] in bs;
      InQuadrantPartition(r, front);
      assert multiset(bs) == multiset(front) + multiset{bs[m]};
      InQuadrantPush(r, front, bs[m], 0);
      InQuadrantPush(r, front, bs[m], 1);
      InQuadrantPush(r, front, bs[m], 2);
      InQuadrantPush(r, front, bs[m], 3);
    }
  }

  /** Sum of the degrees of `bs`. */
  function SumDegrees(bs: seq<Body>): real
  {
    if bs == [] then 0.0 else SumDegrees(bs[..|bs| - 1]) + bs[|bs| - 1].degree
  }

  /** Sum of the positions of `bs`, each weighted by its degree. */
  function WeightedSum(bs: seq<Body>): Vec2
  {
    if bs == [] then Zero else Add(WeightedSum(bs[..|bs| - 1]), Scale(bs[|bs| - 1].pos, bs[|bs| - 1].degree))
  }

  /** The bodies held by the cells below index n. */
  ghost function BodiesBelow(cs: seq<Cell>, n: nat): multiset<Body>
    requires n <= |cs|
  {
    if n == 0 then multiset{} else BodiesBelow(cs, n - 1) + multiset(cs[n - 1].bodies)
  }

  /** Every body held anywhere in the arena. */
  ghost function AllBodies(cs: seq<Cell>): multiset<Body>
  {
    BodiesBelow(cs, |cs|)
  }

  /** BodiesBelow looks only at the bodies of the cells below n. */
  lemma {:induction false} BodiesBelowFrame(cs: seq<Cell>, cs': seq<Cell>, n: nat)
    requires n <= |cs| && n <= |cs'|
    requires forall j | 0 <= j < n :: cs'[j].bodies == cs[j].bodies
    ensures BodiesBelow(cs', n) == BodiesBelow(cs, n)
  {
    if n > 0 {
      BodiesBelowFrame(cs, cs', n - 1);
    }
  }

  lemma MultisetCancel(a: multiset<Body>, b: multiset<Body>, c: multiset<Body>)
    requires a + c == b + c
    ensures a == b
  {
    forall x ensures a[x] == b[x] {
      assert (a + c)[x] == (b + c)[x];
    }
  }

  /** Replacing cell i by c swaps its bodies for c's in every BodiesBelow
      that counts it. */
  lemma {:induction false} BodiesBelowUpdate(cs: seq<Cell>, i: nat, c: Cell, n: nat)
    requires i < n <= |cs|
    ensures BodiesBelow(cs[i := c], n) + multiset(cs[i].bodies) == BodiesBelow(cs, n) + multiset(c.bodies)
  {
    var cs' := cs[i := c];
    if n == i + 1 {
      BodiesBelowFrame(cs, cs', i);
    } else {
      BodiesBelowUpdate(cs, i, c, n - 1);
      var last, own, added := multiset(cs[n - 1].bodies), multiset(cs[i].bodies), multiset(c.bodies);
      var front, front' := BodiesBelow(cs, n - 1), BodiesBelow(cs', n - 1);
      assert cs'[n - 1] == cs[n - 1];
      forall x ensures (front' + last + own)[x] == (front + last + added)[x] {
        assert (front' + own)[x] == (front + added)[x];
      }
      assert front' + last + own == front + last + added;
    }
  }

  lemma AllBodiesUpdate(cs: seq<Cell>, i: nat, c: Cell)
    requires i < |cs|
    ensures AllBodies(cs[i := c]) + multiset(cs[i].bodies) == AllBodies(cs) + multiset(c.bodies)
  {
    BodiesBelowUpdate(cs, i, c, |cs|);
  }

  /** Replacing a cell by one with the same bodies leaves the tree's bodies alone. */
  lemma AllBodiesKeep(cs: seq<Cell>, i: nat, c: Cell)
    requires i < |cs| && c.bodies == cs[i].bodies
    ensures AllBodies(cs[i := c]) == AllBodies(cs)
  {
    BodiesBelowFrame(cs, cs[i := c], |cs|);
  }

  /** Emptying a cell removes exactly its bodies from the tree. */
  lemma AllBodiesClear(cs: seq<Cell>, i: nat)
    requires i < |cs|
    ensures AllBodies(cs[i := cs[i].(bodies := [])]) + multiset(cs[i].bodies) == AllBodies(cs)
  {
    AllBodiesUpdate(cs, i, cs[i].(bodies := []));
  }

  /** Appending one body to one cell adds exactly that body to the tree. */
  lemma AllBodiesPush(cs: seq<Cell>, i: nat, b: Body)
    requires i < |cs|
    ensures AllBodies(cs[i := cs[i].(bodies := cs[i].bodies + [b])]) == AllBodies(cs) + multiset{b}
  {
    var c := cs[i].(bodies := cs[i].bodies + [b]);
    var own := multiset(cs[i].bodies);
    AllBodiesUpdate(cs, i, c);
    assert multiset(c.bodies) == own + multiset{b};
    MultisetCancel(AllBodies(cs[i := c]), AllBodies(cs) + multiset{b}, own);
  }

  /** Appending cells that hold no bodies adds no bodies. */
  lemma {:induction false} BodiesBelowEmptyTail(cs: seq<Cell>, n: nat, m: nat)
    requires n <= m <= |cs| && forall j | n <= j < m :: cs[j].bodies == []
    ensures BodiesBelow(cs, m) == BodiesBelow(cs, n)
  {
    if m > n {
      BodiesBelowEmptyTail(cs, n, m - 1);
      assert multiset(cs[m - 1].bodies) == multiset{};
    }
  }

  /** Handing the bodies `bs` out to the last four cells by quadrant adds
      exactly `bs` to the tree. */
  lemma SpreadBodies(cs: seq<Cell>, cs': seq<Cell>, r: Rect, bs: seq<Body>)
    requires 4 <= |cs| == |cs'| && forall b | b in bs :: Contains(r, b.pos)
    requires forall j | 0 <= j < |cs| - 4 :: cs'[j] == cs[j]
    requires forall j | |cs| - 4 <= j < |cs| :: cs[j].bodies == [] && cs'[j].bodies == InQuadrant(r, bs, j - (|cs| - 4))
    ensures AllBodies(cs') == AllBodies(cs) + multiset(bs)
  {
    var n := |cs| - 4;
    BodiesBelowFrame(cs, cs', n);
    BodiesBelowEmptyTail(cs, n, n + 4);
    InQuadrantPartition(r, bs);
    var front := BodiesBelow(cs, n);
    var m0, m1 := multiset(InQuadrant(r, bs, 0)), multiset(InQuadrant(r, bs, 1));
    var m2, m3 := multiset(InQuadrant(r, bs, 2)), multiset(InQuadrant(r, bs, 3));
    assert BodiesBelow(cs', n + 1) == front + m0;
    assert BodiesBelow(cs', n + 2) == front + m0 + m1;
    assert BodiesBelow(cs', n + 3) == front + m0 + m1 + m2;
    assert BodiesBelow(cs', n + 4) == front + m0 + m1 + m2 + m3;
    forall x ensures (front + m0 + m1 + m2 + m3)[x] == (front + multiset(bs))[x] {
      assert multiset(bs)[x] == (m0 + m1 + m2 + m3)[x];
    }
    assert front + m0 + m1 + m2 + m3 == front + multiset(bs);
  }

  function Kids(c: nat): seq<nat> { [c, c + 1, c + 2, c + 3] }

  /** Cell i is a leaf, or has four consecutive children stored after it. */
  ghost predicate Layout(cs: seq<Cell>, i: int)
  {
    && 0 <= i < |cs|
    && (|| cs[i].children == []
        || (&& |cs[i].children| == 4 && cs[i].children == Kids(cs[i].children[0])
            && i < cs[i].children[0] && cs[i].children[0] + 3 < |cs|))
  }

  /** Every cell is laid out as Layout says. */
  ghost predicate Ordered(cs: seq<Cell>)
  {
    forall i | 0 <= i < |cs| :: Layout(cs, i)
  }

  /** Cell i within the tree rooted at 0: `par` names each cell's parent, a
      child's region is its parent's quadrant, a parent comes before its
      children, the cell holds at most `capacity` bodies, each inside its
      region. */
  ghost predicate CellOk(cs: seq<Cell>, par: seq<nat>, capacity: nat, i: int)
  {
    && Layout(cs, i) && |par| == |cs|
    && (forall k | 0 <= k < |cs[i].children| ::
          par[cs[i].children[k]] == i && cs[cs[i].children[k]].region == Quadrant(cs[i].region, k))
    && (0 < i ==> par[i] < i && i in cs[par[i]].children)
    && |cs[i].bodies| <= capacity
    && (forall b | b in cs[i].bodies :: Contains(cs[i].region, b.pos))
  }

  /** The invariant of the arena: a tree of cells that are all CellOk. */
  ghost predicate Inv(cs: seq<Cell>, par: seq<nat>, capacity: nat)
  {
    && 1 <= capacity && 1 <= |cs| && |par| == |cs|
    && forall i | 0 <= i < |cs| :: CellOk(cs, par, capacity, i)
  }

  lemma InvOrdered(cs: seq<Cell>, par: seq<nat>, capacity: nat)
    requires Inv(cs, par, capacity)
    ensures Ordered(cs)
  {
    forall i | 0 <= i < |cs| ensures Layout(cs, i) {
      assert CellOk(cs, par, capacity, i);
    }
  }

  /** j is i or lies below i. */
  ghost predicate Descends(par: seq<nat>, j: nat, i: nat)
    decreases j
  {
    j == i || (0 < j < |par| && par[j] < j && Descends(par, par[j], i))
  }

  /** Cell j of cs' still has the region and mass fields it had in cs, and
      the children it had if it had any. */
  ghost predicate Kept(cs: seq<Cell>, cs': seq<Cell>, j: int)
    requires 0 <= j < |cs| && j < |cs'|
  {
    && cs'[j].region == cs[j].region
    && cs'[j].totalMass == cs[j].totalMass && cs'[j].center == cs[j].center
    && (cs[j].children != [] ==> cs'[j].children == cs[j].children)
  }

  /** Cell j has the mass fields of NewQuadTree. */
  ghost predicate Unweighed(cs: seq<Cell>, j: int)
    requires 0 <= j < |cs|
  {
    cs[j].totalMass == 0.0 && cs[j].center == Zero
  }

  /** What insertion never undoes: existing cells are Kept, the parent links
      are extended, and every new cell starts Unweighed. */
  ghost predicate Grows(cs: seq<Cell>, cs': seq<Cell>, par: seq<nat>, par': seq<nat>)
  {
    && |cs| <= |cs'| && |par| <= |par'| && par'[..|par|] == par
    && (forall j | 0 <= j < |cs| :: Kept(cs, cs', j))
    && (forall j | |cs| <= j < |cs'| :: Unweighed(cs', j))
  }

  lemma GrowsTransitive(cs: seq<Cell>, cs': seq<Cell>, cs'': seq<Cell>, par: seq<nat>, par': seq<nat>, par'': seq<nat>)
    requires Grows(cs, cs', par, par') && Grows(cs', cs'', par', par'')
    ensures Grows(cs, cs'', par, par'')
  {
    assert par''[..|par|] == par''[..|par'|][..|par|];
    forall j | 0 <= j < |cs| ensures Kept(cs, cs'', j) {
      assert Kept(cs, cs', j) && Kept(cs', cs'', j);
    }
    forall j | |cs| <= j < |cs''| ensures Unweighed(cs'', j) {
      if j < |cs'| {
        assert Unweighed(cs', j) && Kept(cs', cs'', j);
      } else {
        assert Unweighed(cs'', j);
      }
    }
  }

  /** Replacing cell i by one with the same region, mass fields and (if it had
      any) children is growth. */
  lemma GrowsUpdate(cs: seq<Cell>, par: seq<nat>, i: nat, c: Cell)
    requires i < |cs|
    requires c.region == cs[i].region && c.totalMass == cs[i].totalMass && c.center == cs[i].center
    requires cs[i].children != [] ==> c.children == cs[i].children
    ensures Grows(cs, cs[i := c], par, par)
  {
    var cs' := cs[i := c];
    assert par[..|par|] == par;
    forall j | 0 <= j < |cs| ensures Kept(cs, cs', j) {
    }
  }

  /** Growth keeps an arena that is unweighed throughout unweighed. */
  lemma GrowsUnweighed(cs: seq<Cell>, cs': seq<Cell>, par: seq<nat>, par': seq<nat>)
    requires Grows(cs, cs', par, par') && forall j | 0 <= j < |cs| :: Unweighed(cs, j)
    ensures forall j | 0 <= j < |cs'| :: Unweighed(cs', j)
  {
    forall j | 0 <= j < |cs'| ensures Unweighed(cs', j) {
      if j < |cs| {
        assert Kept(cs, cs', j) && Unweighed(cs, j);
      }
    }
  }

  /** The children of an internal cell lie after it in the arena. */
  lemma ChildrenAfter(cs: seq<Cell>, par: seq<nat>, capacity: nat, i: nat)
    requires Inv(cs, par, capacity) && i < |cs| && cs[i].children != []
    ensures |cs[i].children| == 4
    ensures forall k | 0 <= k < 4 :: i < cs[i].children[k] < |cs|
  {
    assert CellOk(cs, par, capacity, i);
  }

  /** The bodies of a cell are within its region and no more than `capacity`. */
  lemma BodiesPlaced(cs: seq<Cell>, par: seq<nat>, capacity: nat, i: nat)
    requires Inv(cs, par, capacity) && i < |cs|
    ensures |cs[i].bodies| <= capacity
    ensures forall b | b in cs[i].bodies :: Contains(cs[i].region, b.pos)
  {
    assert CellOk(cs, par, capacity, i);
  }

  /** Changing only the bodies of cell i, to a list that fits and lies in
      its region, keeps the invariant. */
  lemma RefillKeepsInv(cs: seq<Cell>, par: seq<nat>, capacity: nat, i: nat, bs: seq<Body>)
    requires Inv(cs, par, capacity) && i < |cs|
    requires |bs| <= capacity && forall b | b in bs :: Contains(cs[i].region, b.pos)
    ensures Inv(cs[i := cs[i].(bodies := bs)], par, capacity)
  {
    var cs' := cs[i := cs[i].(bodies := bs)];
    forall j | 0 <= j < |cs'| ensures CellOk(cs', par, capacity, j) {
      assert CellOk(cs, par, capacity, j);
      assert Layout(cs', j);
      if 0 < j {
        assert cs'[par[j]].children == cs[par[j]].children;
      }
    }
  }

  lemma AppendKeepsInv(cs: seq<Cell>, par: seq<nat>, capacity: nat, i: nat, b: Body)
    requires Inv(cs, par, capacity) && i < |cs|
    requires Contains(cs[i].region, b.pos) && |cs[i].bodies| < capacity
    ensures Inv(cs[i := cs[i].(bodies := cs[i].bodies + [b])], par, capacity)
  {
    assert CellOk(cs, par, capacity, i);
    RefillKeepsInv(cs, par, capacity, i, cs[i].bodies + [b]);
  }

  lemma ClearKeepsInv(cs: seq<Cell>, par: seq<nat>, capacity: nat, i: nat)
    requires Inv(cs, par, capacity) && i < |cs|
    ensures Inv(cs[i := cs[i].(bodies := [])], par, capacity)
  {
    RefillKeepsInv(cs, par, capacity, i, []);
  }

  /** The four fresh quadrant cells Subdivide creates for region r. */
  function Quadrants(r: Rect): seq<Cell>
  {
    [NewQuadTree(Quadrant(r, 0)), NewQuadTree(Quadrant(r, 1)), NewQuadTree(Quadrant(r, 2)), NewQuadTree(Quadrant(r, 3))]
  }

  /** The arena after Subdivide's appends and the new children link. */
  function Split(cs: seq<Cell>, i: nat): seq<Cell>
    requires i < |cs|
  {
    (cs + Quadrants(cs[i].region))[i := cs[i].(children := Kids(|cs|))]
  }

  /** Subdivide's appends and link touch no other cell. */
  lemma SplitCells(cs: seq<Cell>, i: nat)
    requires i < |cs|
    ensures |Split(cs, i)| == |cs| + 4
    ensures forall j | 0 <= j < |cs| && j != i :: Split(cs, i)[j] == cs[j]
    ensures Split(cs, i)[i] == cs[i].(children := Kids(|cs|))
    ensures forall j | |cs| <= j < |cs| + 4 :: Split(cs, i)[j] == NewQuadTree(Quadrant(cs[i].region, j - |cs|))
  {
    forall j | |cs| <= j < |cs| + 4
      ensures Split(cs, i)[j] == NewQuadTree(Quadrant(cs[i].region, j - |cs|))
    {
      assert Split(cs, i)[j] == Quadrants(cs[i].region)[j - |cs|];
    }
  }

  /** Subdivide's appends and link add no bodies. */
  lemma SplitKeepsBodies(cs: seq<Cell>, i: nat)
    requires i < |cs|
    ensures AllBodies(Split(cs, i)) == AllBodies(cs)
  {
    var cs' := Split(cs, i);
    SplitCells(cs, i);
    BodiesBelowFrame(cs, cs', |cs|);
    BodiesBelowEmptyTail(cs', |cs|, |cs| + 4);
  }

  /** Subdivide's appends and link are growth. */
  lemma SplitGrows(cs: seq<Cell>, par: seq<nat>, i: nat)
    requires i < |cs| && cs[i].children == []
    ensures Grows(cs, Split(cs, i), par, par + [i, i, i, i])
  {
    SplitCells(cs, i);
    assert (par + [i, i, i, i])[..|par|] == par;
    forall j | 0 <= j < |cs| ensures Kept(cs, Split(cs, i), j) {
    }
    forall j | |cs| <= j < |cs| + 4 ensures Unweighed(Split(cs, i), j) {
    }
  }

  lemma SplitKeepsInv(cs: seq<Cell>, par: seq<nat>, capacity: nat, i: nat)
    requires Inv(cs, par, capacity) && i < |cs| && cs[i].children == []
    ensures Inv(Split(cs, i), par + [i, i, i, i], capacity)
  {
    var n := |cs|;
    var cs', par' := Split(cs, i), par + [i, i, i, i];
    SplitCells(cs, i);
    forall j | 0 <= j < |cs'| ensures CellOk(cs', par', capacity, j) {
      if j == i {
        SplitCellSelf(cs, par, capacity, i);
      } else if j < n {
        SplitCellOld(cs, par, capacity, i, j);
      } else {
        SplitCellNew(cs, par, capacity, i, j);
      }
    }
  }

  lemma SplitCellSelf(cs: seq<Cell>, par: seq<nat>, capacity: nat, i: nat)
    requires Inv(cs, par, capacity) && i < |cs| && cs[i].children == []
    ensures CellOk(Split(cs, i), par + [i, i, i, i], capacity, i)
  {
    var n := |cs|;
    var cs', par' := Split(cs, i), par + [i, i, i, i];
    SplitCells(cs, i);
    assert CellOk(cs, par, capacity, i);
    assert Layout(cs', i);
    forall k | 0 <= k < 4
      ensures par'[cs'[i].children[k]] == i && cs'[cs'[i].children[k]].region == Quadrant(cs'[i].region, k)
    {
      assert cs'[i].children[k] == n + k;
    }
    if 0 < i {
      assert par'[i] == par[i] && cs'[par[i]] == cs[par[i]];
    }
  }

  lemma SplitCellOld(cs: seq<Cell>, par: seq<nat>, capacity: nat, i: nat, j: nat)
    requires Inv(cs, par, capacity) && i < |cs| && cs[i].children == [] && j < |cs| && j != i
    ensures CellOk(Split(cs, i), par + [i, i, i, i], capacity, j)
  {
    var n := |cs|;
    var cs', par' := Split(cs, i), par + [i, i, i, i];
    SplitCells(cs, i);
    assert CellOk(cs, par, capacity, j);
    assert Layout(cs', j);
    forall k | 0 <= k < |cs'[j].children|
      ensures par'[cs'[j].children[k]] == j && cs'[cs'[j].children[k]].region == Quadrant(cs'[j].region, k)
    {
      var c := cs[j].children[k];
      assert par'[c] == par[c];
      assert cs'[c].region == cs[c].region;
    }
    if 0 < j {
      assert par'[j] == par[j];
      if par[j] == i {
        assert false;
      }
      assert cs'[par[j]] == cs[par[j]];
    }
  }

  lemma SplitCellNew(cs: seq<Cell>, par: seq<nat>, capacity: nat, i: nat, j: nat)
    requires Inv(cs, par, capacity) && i < |cs| && cs[i].children == [] && |cs| <= j < |cs| + 4
    ensures CellOk(Split(cs, i), par + [i, i, i, i], capacity, j)
  {
    var cs', par' := Split(cs, i), par + [i, i, i, i];
    SplitCells(cs, i);
    assert par'[j] == i;
    assert cs'[i].children == Kids(|cs|);
    assert Layout(cs', j);
  }

  /** What Subdivide leaves behind: cs is the arena once Distribute has
      handed cell i's bodies to the fresh children of Split(cs0, i); clearing
      cell i then keeps the invariant and every body, and is growth. */
  lemma SubdivideDone(cs0: seq<Cell>, par0: seq<nat>, cs: seq<Cell>, capacity: nat, i: nat)
    requires Inv(cs0, par0, capacity) && i < |cs0| && cs0[i].children == []
    requires var split, par := Split(cs0, i), par0 + [i, i, i, i];
             && Inv(cs, par, capacity) && |cs| == |split| && Grows(split, cs, par, par)
             && (forall j | 0 <= j < |cs0| :: cs[j] == split[j])
             && (forall j | |cs0| <= j < |cs| ::
                   cs[j] == NewQuadTree(Quadrant(cs0[i].region, j - |cs0|)).(bodies := InQuadrant(cs0[i].region, cs0[i].bodies, j - |cs0|)))
    ensures var cs', par := cs[i := cs[i].(bodies := [])], par0 + [i, i, i, i];
            && Inv(cs', par, capacity) && Grows(cs0, cs', par0, par)
            && AllBodies(cs') == AllBodies(cs0)
            && (forall j | 0 <= j < |cs0| && j != i :: cs'[j] == cs0[j])
            && cs'[i] == cs0[i].(bodies := [], children := Kids(|cs0|))
  {
    var split, par := Split(cs0, i), par0 + [i, i, i, i];
    var cs' := cs[i := cs[i].(bodies := [])];
    SplitCells(cs0, i);
    SplitKeepsBodies(cs0, i);
    SplitGrows(cs0, par0, i);
    BodiesPlaced(cs0, par0, capacity, i);
    SpreadBodies(split, cs, cs0[i].region, cs0[i].bodies);
    AllBodiesClear(cs, i);
    MultisetCancel(AllBodies(cs'), AllBodies(cs0), multiset(cs0[i].bodies));
    ClearKeepsInv(cs, par, capacity, i);
    GrowsUpdate(cs, par, i, cs[i].(bodies := []));
    GrowsTransitive(cs0, split, cs, par0, par, par);
    GrowsTransitive(cs0, cs, cs', par0, par, par);
  }

  /* ---------------- Insert as a function of the arena ---------------- */

  /** The arena Subdivide leaves: four fresh quadrant cells appended, child
      k holding quadrant k's share of cell i's bodies, and cell i emptied
      and linked to them. */
  function Subdivided(cs: seq<Cell>, i: nat): seq<Cell>
    requires i < |cs|
  {
    var r, n := cs[i].region, |cs|;
    seq(n + 4, j requires 0 <= j < n + 4 =>
      if j == i then cs[i].(bodies := [], children := Kids(n))
      else if j < n then cs[j]
      else NewQuadTree(Quadrant(r, j - n)).(bodies := InQuadrant(r, cs[i].bodies, j - n)))
  }

  /** An arena that agrees with Subdivided cell by cell is Subdivided. */
  lemma SubdividedIs(cs: seq<Cell>, cs': seq<Cell>, i: nat)
    requires i < |cs| && |cs'| == |cs| + 4
    requires forall j | 0 <= j < |cs| && j != i :: cs'[j] == cs[j]
    requires cs'[i] == cs[i].(bodies := [], children := Kids(|cs|))
    requires forall j | |cs| <= j < |cs'| ::
               cs'[j] == NewQuadTree(Quadrant(cs[i].region, j - |cs|)).(bodies := InQuadrant(cs[i].region, cs[i].bodies, j - |cs|))
    ensures cs' == Subdivided(cs, i)
  {
    var s := Subdivided(cs, i);
    forall j | 0 <= j < |cs'| ensures cs'[j] == s[j] {
      if j == i {
      } else if j < |cs| {
        assert cs'[j] == cs[j];
      } else {
        assert cs'[j] == NewQuadTree(Quadrant(cs[i].region, j - |cs|)).(bodies := InQuadrant(cs[i].region, cs[i].bodies, j - |cs|));
      }
    }
  }

  /** What QuadTree.Insert on cell i makes of the arena, and its answer: a
      body outside the box is refused; a cell with room takes it, internal
      or not; past the depth bound it is refused; otherwise a leaf is
      subdivided and the children are offered the body in order. */
  function Inserted(cs: seq<Cell>, capacity: nat, i: nat, b: Body, depth: nat): (seq<Cell>, bool)
    decreases depth, 1
  {
    if |cs| <= i || !Contains(cs[i].region, b.pos) then (cs, false)
    else if |cs[i].bodies| < capacity then (cs[i := cs[i].(bodies := cs[i].bodies + [b])], true)
    else if depth == 0 then (cs, false)
    else
      var split := if cs[i].children == [] then Subdivided(cs, i) else cs;
      InsertedIntoChildren(split, capacity, split[i].children, b, depth, 0)
  }

  /** Insert's loop from child `kids[t]` on: the first child to accept the
      body ends it. */
  function InsertedIntoChildren(cs: seq<Cell>, capacity: nat, kids: seq<nat>, b: Body, depth: nat, t: nat): (seq<Cell>, bool)
    requires 1 <= depth
    decreases depth, 0, |kids| - t
  {
    if |kids| <= t then (cs, false)
    else
      var r := Inserted(cs, capacity, kids[t], b, depth - 1);
      if r.1 then r else InsertedIntoChildren(r.0, capacity, kids, b, depth, t + 1)
  }


  /* ---------------- CalculateMasses ---------------- */

  /** The bodies held by the leaves below cell i, leaf by leaf in child
      order: the bodies CalculateMasses and CalculateForce take into
      account (bodies held by an internal cell are not among them). */
  function LeafBodies(cs: seq<Cell>, i: nat): seq<Body>
    requires Ordered(cs) && i < |cs|
    decreases |cs| - i, 5
  {
    assert Layout(cs, i);
    if cs[i].children == [] then cs[i].bodies else ChildrenLeafBodies(cs, i, 4)
  }

  function ChildrenLeafBodies(cs: seq<Cell>, i: nat, k: nat): seq<Body>
    requires Ordered(cs) && i < |cs| && cs[i].children != [] && k <= 4
    decreases |cs| - i, k
  {
    assert Layout(cs, i);
    if k == 0 then [] else ChildrenLeafBodies(cs, i, k - 1) + LeafBodies(cs, cs[i].children[k - 1])
  }

  /** The TotalMass CalculateMasses leaves in cell i: the degrees of a leaf's
      bodies, the masses of an internal cell's four children. */
  function Mass(cs: seq<Cell>, i: nat): real
    requires Ordered(cs) && i < |cs|
    decreases |cs| - i, 5
  {
    assert Layout(cs, i);
    if cs[i].children == [] then SumDegrees(cs[i].bodies) else ChildrenMass(cs, i, 4)
  }

  function ChildrenMass(cs: seq<Cell>, i: nat, k: nat): real
    requires Ordered(cs) && i < |cs| && cs[i].children != [] && k <= 4
    decreases |cs| - i, k
  {
    assert Layout(cs, i);
    if k == 0 then 0.0 else ChildrenMass(cs, i, k - 1) + Mass(cs, cs[i].children[k - 1])
  }

  /** What CalculateMasses accumulates in Center before it divides: the
      degree-weighted positions of a leaf's bodies, each child's centre
      weighted by the child's mass for an internal cell. */
  function Accumulated(cs: seq<Cell>, i: nat): Vec2
    requires Ordered(cs) && i < |cs|
    decreases |cs| - i, 6
  {
    assert Layout(cs, i);
    if cs[i].children == [] then WeightedSum(cs[i].bodies) else ChildrenAccumulated(cs, i, 4)
  }

  function ChildrenAccumulated(cs: seq<Cell>, i: nat, k: nat): Vec2
    requires Ordered(cs) && i < |cs| && cs[i].children != [] && k <= 4
    decreases |cs| - i, k
  {
    assert Layout(cs, i);
    if k == 0 then Zero
    else
      var c := cs[i].children[k - 1];
      Add(ChildrenAccumulated(cs, i, k - 1), Scale(Centre(cs, c), Mass(cs, c)))
  }

  /** The Center CalculateMasses leaves in cell i. Where the mass is 0 the
      source divides by zero; the model keeps the undivided sum there. */
  function Centre(cs: seq<Cell>, i: nat): Vec2
    requires Ordered(cs) && i < |cs|
    decreases |cs| - i, 7
  {
    var m := Mass(cs, i);
    if m == 0.0 then Accumulated(cs, i) else Div(Accumulated(cs, i), m)
  }

  /** Cell j with the mass fields CalculateMasses gives it. */
  function Weighed(cs: seq<Cell>, j: nat): Cell
    requires Ordered(cs) && j < |cs|
  {
    cs[j].(totalMass := Mass(cs, j), center := Centre(cs, j))
  }

  /** cs' is cs with, at most, other mass fields. */
  ghost predicate SameShape(cs: seq<Cell>, cs': seq<Cell>)
  {
    && |cs'| == |cs|
    && forall j | 0 <= j < |cs| :: cs'[j] == cs[j].(totalMass := cs'[j].totalMass, center := cs'[j].center)
  }

  /** Every body in the arena has a non-negative degree (true of degrees
      accumulated from non-negative edge weights). */
  ghost predicate NonNegDegrees(cs: seq<Cell>)
  {
    forall j, b | 0 <= j < |cs| && b in cs[j].bodies :: 0.0 <= b.degree
  }

  lemma {:induction false} SumsConcat(a: seq<Body>, b: seq<Body>)
    ensures SumDegrees(a + b) == SumDegrees(a) + SumDegrees(b)
    ensures WeightedSum(a + b) == Add(WeightedSum(a), WeightedSum(b))
    decreases |b|
  {
    if b != [] {
      var m := |b| - 1;
      assert (a + b)[..|a + b| - 1] == a + b[..m];
      SumsConcat(a, b[..m]);
    } else {
      assert a + b == a;
    }
  }

  /** Bodies of non-negative degree weigh nothing only if their weighted
      positions sum to the origin. */
  lemma {:induction false} ZeroMassNoMoment(bs: seq<Body>)
    requires forall b | b in bs :: 0.0 <= b.degree
    ensures 0.0 <= SumDegrees(bs)
    ensures SumDegrees(bs) == 0.0 ==> WeightedSum(bs) == Zero
  {
    if bs != [] {
      var m := |bs| - 1;
      assert bs[m] in bs;
      ZeroMassNoMoment(bs[..m]);
    }
  }

  lemma {:induction false} LeafBodiesNonNeg(cs: seq<Cell>, i: nat)
    requires Ordered(cs) && i < |cs| && NonNegDegrees(cs)
    ensures forall b | b in LeafBodies(cs, i) :: 0.0 <= b.degree
    decreases |cs| - i, 5
  {
    assert Layout(cs, i);
    if cs[i].children != [] {
      ChildrenLeafBodiesNonNeg(cs, i, 4);
    }
  }

  lemma {:induction false} ChildrenLeafBodiesNonNeg(cs: seq<Cell>, i: nat, k: nat)
    requires Ordered(cs) && i < |cs| && cs[i].children != [] && k <= 4 && NonNegDegrees(cs)
    ensures forall b | b in ChildrenLeafBodies(cs, i, k) :: 0.0 <= b.degree
    decreases |cs| - i, k
  {
    assert Layout(cs, i);
    if k > 0 {
      ChildrenLeafBodiesNonNeg(cs, i, k - 1);
      LeafBodiesNonNeg(cs, cs[i].children[k - 1]);
    }
  }

  /** The mass of a cell is the total degree of the bodies in the leaves
      below it. */
  lemma {:induction false} MassOfLeaves(cs: seq<Cell>, i: nat)
    requires Ordered(cs) && i < |cs|
    ensures Mass(cs, i) == SumDegrees(LeafBodies(cs, i))
    decreases |cs| - i, 5
  {
    assert Layout(cs, i);
    if cs[i].children != [] {
      ChildrenMassOfLeaves(cs, i, 4);
    }
  }

  lemma {:induction false} ChildrenMassOfLeaves(cs: seq<Cell>, i: nat, k: nat)
    requires Ordered(cs) && i < |cs| && cs[i].children != [] && k <= 4
    ensures ChildrenMass(cs, i, k) == SumDegrees(ChildrenLeafBodies(cs, i, k))
    decreases |cs| - i, k
  {
    assert Layout(cs, i);
    if k > 0 {
      var c := cs[i].children[k - 1];
      ChildrenMassOfLeaves(cs, i, k - 1);
      MassOfLeaves(cs, c);
      SumsConcat(ChildrenLeafBodies(cs, i, k - 1), LeafBodies(cs, c));
    }
  }

  /** With non-negative degrees, the centre of a cell of non-zero mass is the
      degree-weighted average position of the bodies in the leaves below it. */
  lemma {:induction false} CentreOfMass(cs: seq<Cell>, i: nat)
    requires Ordered(cs) && i < |cs| && NonNegDegrees(cs)
    ensures Mass(cs, i) == SumDegrees(LeafBodies(cs, i))
    ensures Accumulated(cs, i) == WeightedSum(LeafBodies(cs, i))
    ensures Mass(cs, i) != 0.0 ==>
              Centre(cs, i) == Div(WeightedSum(LeafBodies(cs, i)), SumDegrees(LeafBodies(cs, i)))
    decreases |cs| - i, 5
  {
    assert Layout(cs, i);
    MassOfLeaves(cs, i);
    if cs[i].children != [] {
      ChildrenCentreOfMass(cs, i, 4);
    }
  }

  lemma {:induction false} ChildrenCentreOfMass(cs: seq<Cell>, i: nat, k: nat)
    requires Ordered(cs) && i < |cs| && cs[i].children != [] && k <= 4 && NonNegDegrees(cs)
    ensures ChildrenAccumulated(cs, i, k) == WeightedSum(ChildrenLeafBodies(cs, i, k))
    decreases |cs| - i, k
  {
    assert Layout(cs, i);
    if k > 0 {
      var c := cs[i].children[k - 1];
      assert ChildrenAccumulated(cs, i, k) == Add(ChildrenAccumulated(cs, i, k - 1), Scale(Centre(cs, c), Mass(cs, c)));
      assert ChildrenLeafBodies(cs, i, k) == ChildrenLeafBodies(cs, i, k - 1) + LeafBodies(cs, c);
      ChildrenCentreOfMass(cs, i, k - 1);
      ScaledCentre(cs, c);
      SumsConcat(ChildrenLeafBodies(cs, i, k - 1), LeafBodies(cs, c));
    }
  }

  /** A child's centre weighted by its mass is the child's share of the
      moment, including when the child weighs nothing. */
  lemma {:induction false} ScaledCentre(cs: seq<Cell>, c: nat)
    requires Ordered(cs) && c < |cs| && NonNegDegrees(cs)
    ensures Scale(Centre(cs, c), Mass(cs, c)) == WeightedSum(LeafBodies(cs, c))
    decreases |cs| - c, 6
  {
    CentreOfMass(cs, c);
    var m := Mass(cs, c);
    var a := Accumulated(cs, c);
    if m == 0.0 {
      LeafBodiesNonNeg(cs, c);
      ZeroMassNoMoment(LeafBodies(cs, c));
    } else {
      assert Scale(Div(a, m), m) == a;
    }
  }

  lemma SameShapeOrdered(cs: seq<Cell>, cs': seq<Cell>)
    requires Ordered(cs) && SameShape(cs, cs')
    ensures Ordered(cs')
  {
    forall j | 0 <= j < |cs'| ensures Layout(cs', j) {
      assert Layout(cs, j);
      assert cs'[j].children == cs[j].children;
    }
  }

  /** Weighing moves no body. */
  lemma SameShapeBodies(cs: seq<Cell>, cs': seq<Cell>)
    requires SameShape(cs, cs')
    ensures AllBodies(cs') == AllBodies(cs)
  {
    forall j | 0 <= j < |cs| ensures cs'[j].bodies == cs[j].bodies {
      assert cs'[j] == cs[j].(totalMass := cs'[j].totalMass, center := cs'[j].center);
    }
    BodiesBelowFrame(cs, cs', |cs|);
  }

  lemma SameShapeKeepsInv(cs: seq<Cell>, cs': seq<Cell>, par: seq<nat>, capacity: nat)
    requires Inv(cs, par, capacity) && SameShape(cs, cs')
    ensures Inv(cs', par, capacity)
  {
    forall j | 0 <= j < |cs'| ensures CellOk(cs', par, capacity, j) {
      assert CellOk(cs, par, capacity, j);
      assert cs'[j].children == cs[j].children && cs'[j].region == cs[j].region && cs'[j].bodies == cs[j].bodies;
      forall k | 0 <= k < |cs[j].children| ensures cs'[cs[j].children[k]].region == cs[cs[j].children[k]].region {
      }
      if 0 < j {
        assert cs'[par[j]].children == cs[par[j]].children;
      }
      assert Layout(cs', j);
    }
  }

  /** Mass and Centre read only the bodies and children of the cells. */
  lemma {:induction false} ShapeDecidesMass(cs: seq<Cell>, cs': seq<Cell>, i: nat)
    requires Ordered(cs) && Ordered(cs') && SameShape(cs, cs') && i < |cs|
    ensures Mass(cs', i) == Mass(cs, i) && Accumulated(cs', i) == Accumulated(cs, i)
    ensures Centre(cs', i) == Centre(cs, i)
    decreases |cs| - i, 5
  {
    assert Layout(cs, i);
    assert cs'[i].children == cs[i].children && cs'[i].bodies == cs[i].bodies;
    if cs[i].children != [] {
      ShapeDecidesChildren(cs, cs', i, 4);
    }
  }

  lemma {:induction false} ShapeDecidesChildren(cs: seq<Cell>, cs': seq<Cell>, i: nat, k: nat)
    requires Ordered(cs) && Ordered(cs') && SameShape(cs, cs') && i < |cs|
    requires cs[i].children != [] && k <= 4
    ensures cs'[i].children == cs[i].children
    ensures ChildrenMass(cs', i, k) == ChildrenMass(cs, i, k)
    ensures ChildrenAccumulated(cs', i, k) == ChildrenAccumulated(cs, i, k)
    decreases |cs| - i, k
  {
    assert Layout(cs, i);
    assert cs'[i].children == cs[i].children;
    if k > 0 {
      var c := cs[i].children[k - 1];
      ShapeDecidesChildren(cs, cs', i, k - 1);
      ShapeDecidesMass(cs, cs', c);
      assert ChildrenMass(cs', i, k) == ChildrenMass(cs', i, k - 1) + Mass(cs', c);
      assert ChildrenAccumulated(cs', i, k) == Add(ChildrenAccumulated(cs', i, k - 1), Scale(Centre(cs', c), Mass(cs', c)));
    }
  }

  /** j lies below one of the first k of the cells `kids`. */
  ghost predicate BelowKids(par: seq<nat>, kids: seq<nat>, k: nat, j: nat)
    requires k <= |kids|
  {
    exists m | 0 <= m < k :: Descends(par, j, kids[m])
  }

  lemma {:induction false} DescendsAbove(par: seq<nat>, j: nat, i: nat)
    requires Descends(par, j, i)
    ensures i <= j
    decreases j
  {
    if j != i {
      DescendsAbove(par, par[j], i);
    }
  }

  lemma {:induction false} DescendsTransitive(par: seq<nat>, j: nat, m: nat, i: nat)
    requires Descends(par, j, m) && Descends(par, m, i)
    ensures Descends(par, j, i)
    decreases j
  {
    if j != m {
      DescendsTransitive(par, par[j], m, i);
    }
  }

  /** Two cells above the same cell lie one above the other. */
  lemma {:induction false} DescendsLinear(par: seq<nat>, j: nat, a: nat, b: nat)
    requires Descends(par, j, a) && Descends(par, j, b)
    ensures Descends(par, a, b) || Descends(par, b, a)
    decreases j
  {
    if j != a && j != b {
      DescendsLinear(par, par[j], a, b);
    }
  }

  /** A cell strictly below i lies below one of i's children. */
  lemma {:induction false} DescendsChild(cs: seq<Cell>, par: seq<nat>, capacity: nat, i: nat, j: nat)
    requires Inv(cs, par, capacity) && i < |cs| && j < |cs| && j != i && Descends(par, j, i)
    ensures cs[i].children != [] && |cs[i].children| == 4
    ensures BelowKids(par, cs[i].children, 4, j)
    decreases j
  {
    assert CellOk(cs, par, capacity, j);
    var p := par[j];
    if p == i {
      assert j in cs[i].children;
      assert CellOk(cs, par, capacity, i);
      var m :| 0 <= m < |cs[i].children| && cs[i].children[m] == j;
      assert Descends(par, j, cs[i].children[m]);
    } else {
      DescendsChild(cs, par, capacity, i, p);
      var m :| 0 <= m < 4 && Descends(par, p, cs[i].children[m]);
      assert Descends(par, j, cs[i].children[m]);
    }
  }

  /** The cells below i are i and the cells below its children. */
  lemma KidsDescend(cs: seq<Cell>, par: seq<nat>, capacity: nat, i: nat, j: nat)
    requires Inv(cs, par, capacity) && i < |cs| && cs[i].children != [] && j < |cs|
    ensures |cs[i].children| == 4
    ensures Descends(par, j, i) <==> j == i || BelowKids(par, cs[i].children, 4, j)
  {
    assert CellOk(cs, par, capacity, i);
    if BelowKids(par, cs[i].children, 4, j) {
      var m :| 0 <= m < 4 && Descends(par, j, cs[i].children[m]);
      assert Descends(par, cs[i].children[m], i);
      DescendsTransitive(par, j, cs[i].children[m], i);
    }
    if j != i && Descends(par, j, i) {
      DescendsChild(cs, par, capacity, i, j);
    }
  }

  /** A cell below child m of i lies below none of the children before m. */
  lemma {:induction false} KidsDisjoint(cs: seq<Cell>, par: seq<nat>, capacity: nat, i: nat, m: nat, k: nat, j: nat)
    requires Inv(cs, par, capacity) && i < |cs| && cs[i].children != [] && k <= m < 4
    requires |cs[i].children| == 4 && Descends(par, j, cs[i].children[m])
    ensures !BelowKids(par, cs[i].children, k, j)
  {
    assert CellOk(cs, par, capacity, i);
    var kids := cs[i].children;
    forall m' | 0 <= m' < k ensures !Descends(par, j, kids[m']) {
      if Descends(par, j, kids[m']) {
        DescendsLinear(par, j, kids[m], kids[m']);
        if Descends(par, kids[m], kids[m']) {
          DescendsAbove(par, par[kids[m]], kids[m']);
        } else {
          DescendsAbove(par, par[kids[m']], kids[m]);
        }
      }
    }
  }

  /** A cell below one child of i lies below no other child of i. */
  lemma SiblingsApart(cs: seq<Cell>, par: seq<nat>, capacity: nat, i: nat, a: nat, c: nat, j: nat)
    requires Inv(cs, par, capacity) && i < |cs| && |cs[i].children| == 4 && a < 4 && c < 4 && a != c
    requires Descends(par, j, cs[i].children[a])
    ensures !Descends(par, j, cs[i].children[c])
  {
    if a < c {
      if Descends(par, j, cs[i].children[c]) {
        KidsDisjoint(cs, par, capacity, i, c, c, j);
      }
    } else {
      KidsDisjoint(cs, par, capacity, i, a, a, j);
    }
  }

  /** A child of i lies after i and below it. */
  lemma ChildDescends(cs: seq<Cell>, par: seq<nat>, capacity: nat, i: nat, t: nat)
    requires Inv(cs, par, capacity) && i < |cs| && t < |cs[i].children|
    ensures i < cs[i].children[t] < |cs| && Descends(par, cs[i].children[t], i)
  {
    assert CellOk(cs, par, capacity, i);
  }

  /** Extending the parent links leaves the ancestry of existing cells alone. */
  lemma {:induction false} DescendsPrefix(par: seq<nat>, par': seq<nat>, j: nat, i: nat)
    requires |par| <= |par'| && par'[..|par|] == par && j < |par|
    ensures Descends(par', j, i) <==> Descends(par, j, i)
    decreases j
  {
    if j != i && 0 < j {
      assert par'[j] == par'[..|par|][j];
      if par[j] < j {
        DescendsPrefix(par, par', par[j], i);
      }
    }
  }

  /** Of the cells of cs, those outside the subtree of c are the same in cs'. */
  ghost predicate OutsideKept(cs: seq<Cell>, cs': seq<Cell>, par: seq<nat>, c: nat)
  {
    |cs| <= |cs'| && forall j | 0 <= j < |cs| && !Descends(par, j, c) :: cs'[j] == cs[j]
  }

  /** Of the cells of cs, those in the subtree of c are the same in cs'. */
  ghost predicate BelowKept(cs: seq<Cell>, cs': seq<Cell>, par: seq<nat>, c: nat)
  {
    |cs| <= |cs'| && forall j | 0 <= j < |cs| && Descends(par, j, c) :: cs'[j] == cs[j]
  }

  /** Body b is the last body of cell `at`, which lies in the subtree of c. */
  ghost predicate Landed(cs: seq<Cell>, par: seq<nat>, c: nat, at: nat, b: Body)
  {
    at < |cs| && Descends(par, at, c) && cs[at].bodies != [] && cs[at].bodies[|cs[at].bodies| - 1] == b
  }

  /** An insertion below child t of i, which changes nothing outside that
      child's subtree, changes nothing outside i's subtree and nothing below
      i's other children. */
  lemma ChildFrame(cs0: seq<Cell>, par0: seq<nat>, capacity: nat, i: nat, t: nat,
                   before: seq<Cell>, beforePar: seq<nat>, cs: seq<Cell>)
    requires Inv(cs0, par0, capacity) && i < |cs0| && |cs0[i].children| == 4 && t < 4
    requires |cs0| <= |before| && |par0| <= |beforePar| && beforePar[..|par0|] == par0
    requires OutsideKept(before, cs, beforePar, cs0[i].children[t])
    ensures OutsideKept(cs0, before, par0, i) ==> OutsideKept(cs0, cs, par0, i)
    ensures forall k | 0 <= k < 4 && k != t ::
              BelowKept(cs0, before, par0, cs0[i].children[k]) ==> BelowKept(cs0, cs, par0, cs0[i].children[k])
  {
    var kids := cs0[i].children;
    ChildDescends(cs0, par0, capacity, i, t);
    forall j | 0 <= j < |cs0| && Descends(beforePar, j, kids[t])
      ensures Descends(par0, j, i)
      ensures forall k | 0 <= k < 4 && k != t :: !Descends(par0, j, kids[k])
    {
      DescendsPrefix(par0, beforePar, j, kids[t]);
      DescendsTransitive(par0, j, kids[t], i);
      forall k | 0 <= k < 4 && k != t ensures !Descends(par0, j, kids[k]) {
        SiblingsApart(cs0, par0, capacity, i, t, k, j);
      }
    }
  }

  /** Reweighing the arena from the bottom leaves every shape intact. */
  lemma WeighedShape(cs: seq<Cell>, cs': seq<Cell>)
    requires Ordered(cs) && |cs'| == |cs|
    requires forall j | 0 <= j < |cs| :: cs'[j] == cs[j] || cs'[j] == Weighed(cs, j)
    ensures SameShape(cs, cs')
  {
  }

  /** cs is cs0 with the cells below the first k of `kids` weighed and no
      other change. */
  ghost predicate WeighedBelowKids(cs0: seq<Cell>, cs: seq<Cell>, par: seq<nat>, kids: seq<nat>, k: nat)
    requires Ordered(cs0) && k <= |kids|
  {
    && |cs| == |cs0|
    && forall j | 0 <= j < |cs| :: cs[j] == if BelowKids(par, kids, k, j) then Weighed(cs0, j) else cs0[j]
  }

  /** Before child k of i is weighed, its subtree is untouched and so still
      as NewQuadTree left it. */
  lemma KidUnweighed(cs0: seq<Cell>, cs: seq<Cell>, par: seq<nat>, capacity: nat, i: nat, k: nat)
    requires Inv(cs0, par, capacity) && Ordered(cs0) && i < |cs0| && cs0[i].children != [] && k < 4
    requires forall j | 0 <= j < |cs0| && Descends(par, j, i) :: Unweighed(cs0, j)
    requires |cs0[i].children| == 4 && WeighedBelowKids(cs0, cs, par, cs0[i].children, k)
    ensures Ordered(cs) && SameShape(cs0, cs)
    ensures forall j | 0 <= j < |cs| && Descends(par, j, cs0[i].children[k]) :: Unweighed(cs, j)
  {
    var kid := cs0[i].children[k];
    forall j | 0 <= j < |cs| && Descends(par, j, kid) ensures Unweighed(cs, j) {
      KidsDisjoint(cs0, par, capacity, i, k, k, j);
      assert CellOk(cs0, par, capacity, i) && par[kid] == i;
      assert Descends(par, kid, i);
      DescendsTransitive(par, j, kid, i);
    }
    WeighedShape(cs0, cs);
    SameShapeOrdered(cs0, cs);
  }

  /** Weighing child k of i extends the weighed part of the arena to the
      subtrees of the first k + 1 children. */
  lemma KidWeighed(cs0: seq<Cell>, before: seq<Cell>, cs: seq<Cell>, par: seq<nat>, capacity: nat, i: nat, k: nat)
    requires Inv(cs0, par, capacity) && Ordered(cs0) && Ordered(before) && SameShape(cs0, before)
    requires i < |cs0| && cs0[i].children != [] && |cs0[i].children| == 4 && k < 4
    requires WeighedBelowKids(cs0, before, par, cs0[i].children, k) && |cs| == |cs0|
    requires forall j | 0 <= j < |cs| ::
               cs[j] == if Descends(par, j, cs0[i].children[k]) then Weighed(before, j) else before[j]
    ensures WeighedBelowKids(cs0, cs, par, cs0[i].children, k + 1)
    ensures cs0[i].children[k] < |cs| && cs[cs0[i].children[k]] == Weighed(cs0, cs0[i].children[k])
  {
    var kids := cs0[i].children;
    assert CellOk(cs0, par, capacity, i);
    forall j | 0 <= j < |cs|
      ensures cs[j] == if BelowKids(par, kids, k + 1, j) then Weighed(cs0, j) else cs0[j]
    {
      if Descends(par, j, kids[k]) {
        KidsDisjoint(cs0, par, capacity, i, k, k, j);
        ShapeDecidesMass(cs0, before, j);
        assert BelowKids(par, kids, k + 1, j);
      } else {
        assert BelowKids(par, kids, k + 1, j) == BelowKids(par, kids, k, j);
      }
    }
    assert Descends(par, kids[k], kids[k]);
    assert BelowKids(par, kids, k + 1, kids[k]);
  }

  /** One more child in the sums of an internal cell. */
  lemma ChildrenStep(cs: seq<Cell>, i: nat, k: nat)
    requires Ordered(cs) && i < |cs| && cs[i].children != [] && k < 4
    ensures |cs[i].children| == 4 && cs[i].children[k] < |cs|
    ensures var c := Weighed(cs, cs[i].children[k]);
            && ChildrenMass(cs, i, k + 1) == ChildrenMass(cs, i, k) + c.totalMass
            && ChildrenAccumulated(cs, i, k + 1) == Add(ChildrenAccumulated(cs, i, k), Scale(c.center, c.totalMass))
  {
    assert Layout(cs, i);
  }

  /** CalculateMasses's loop over the bodies of a leaf: the sum of their
      degrees and of their degree-weighted positions. */
  method LeafSums(bodies: seq<Body>) returns (mass: real, center: Vec2)
    ensures mass == SumDegrees(bodies) && center == WeightedSum(bodies)
  {
    mass := 0.0;
    center := Zero;
    var t := 0;
    while t < |bodies|
      invariant t <= |bodies|
      invariant mass == SumDegrees(bodies[..t]) && center == WeightedSum(bodies[..t])
    {
      assert bodies[..t + 1][..t] == bodies[..t];
      mass := mass + bodies[t].degree;
      center := Vec2(center.x + bodies[t].pos.x * bodies[t].degree, center.y + bodies[t].pos.y * bodies[t].degree);
      t := t + 1;
    }
    assert bodies[..t] == bodies;
  }

  /** An internal cell lies below none of its children. */
  lemma KidsAbove(cs: seq<Cell>, par: seq<nat>, capacity: nat, i: nat)
    requires Inv(cs, par, capacity) && i < |cs| && cs[i].children != []
    ensures |cs[i].children| == 4 && !BelowKids(par, cs[i].children, 4, i)
  {
    assert CellOk(cs, par, capacity, i);
    forall m | 0 <= m < 4 ensures !Descends(par, i, cs[i].children[m]) {
      if Descends(par, i, cs[i].children[m]) {
        DescendsAbove(par, i, cs[i].children[m]);
      }
    }
  }

  class Tree {
    var cells: seq<Cell>
    ghost var parent: seq<nat>
    /** The package-level `capacity` of quadtree.go. */
    const capacity: nat

    ghost predicate Valid()
      reads this
    {
      Inv(cells, parent, capacity)
    }

    /** NewQuadTree for the root. */
    constructor (boundary: Rect, capacity: nat)
      requires 1 <= capacity
      ensures Valid() && this.capacity == capacity
      ensures cells == [NewQuadTree(boundary)]
    {
      this.capacity := capacity;
      cells := [NewQuadTree(boundary)];
      parent := [0];
    }

    /** QuadTree.Insert on cell i. `depth` bounds the recursion: where the
        source would descend below it, the model answers false. When the
        answer is true, `at` is the cell below i that took the body. */
    method Insert(i: nat, b: Body, depth: nat) returns (ok: bool, ghost at: nat)
      requires Valid() && i < |cells|
      modifies this
      decreases depth, 4
      ensures Valid() && Grows(old(cells), cells, old(parent), parent)
      ensures forall j | 0 <= j < i :: cells[j] == old(cells[j])
      ensures OutsideKept(old(cells), cells, old(parent), i)
      ensures ok ==> Contains(cells[i].region, b.pos) && Landed(cells, parent, i, at, b)
      ensures !Contains(old(cells[i].region), b.pos) ==> !ok && cells == old(cells) && parent == old(parent)
      ensures Contains(old(cells[i].region), b.pos) && |old(cells[i].bodies)| < capacity ==>
                ok && parent == old(parent) &&
                cells == old(cells)[i := old(cells[i]).(bodies := old(cells[i].bodies) + [b])]
      ensures capacity <= |old(cells[i].bodies)| ==>
                cells[i].bodies ==
                  if Contains(old(cells[i].region), b.pos) && old(cells[i].children) == [] && 0 < depth
                  then [] else old(cells[i].bodies)
      ensures Contains(old(cells[i].region), b.pos) && capacity <= |old(cells[i].bodies)| &&
              old(cells[i].children) == [] && 0 < depth ==>
                cells[i].children == Kids(old(|cells|))
      ensures ok ==> AllBodies(cells) == AllBodies(old(cells)) + multiset{b}
      ensures !ok ==> AllBodies(cells) == AllBodies(old(cells))
      ensures (cells, ok) == Inserted(old(cells), capacity, i, b, depth)
    {
      at := i;
      if !Contains(cells[i].region, b.pos) {
        ok := false;
        return;
      }
      if |cells[i].bodies| < capacity {
        var cell := cells[i].(bodies := cells[i].bodies + [b]);
        AllBodiesPush(cells, i, b);
        AppendKeepsInv(cells, parent, capacity, i, b);
        GrowsUpdate(cells, parent, i, cell);
        cells := cells[i := cell];
        ok := true;
        return;
      }
      if depth == 0 {
        ok := false;
        return;
      }
      if cells[i].children == [] {
        ghost var leaf := cells;
        Subdivide(i, depth);
        SubdividedIs(leaf, cells, i);
      }
      ghost var split := cells;
      ghost var splitParent := parent;
      ghost var k;
      ok, k, at := InsertIntoChildren(i, b, depth);
      GrowsTransitive(old(cells), split, cells, old(parent), splitParent, parent);
      forall j | 0 <= j < |old(cells)| && !Descends(old(parent), j, i) ensures cells[j] == old(cells)[j] {
        DescendsPrefix(old(parent), splitParent, j, i);
      }
    }

    /** Insert's loop over the children of the internal cell i: the children
        are tried in order and the first that accepts the body, child k, ends
        the loop. The body lands below child k; the cells outside i's
        subtree, below the children after k, and below every child whose
        box does not contain the body are untouched. */
    method InsertIntoChildren(i: nat, b: Body, depth: nat) returns (ok: bool, ghost k: nat, ghost at: nat)
      requires Valid() && i < |cells| && cells[i].children != [] && 1 <= depth
      modifies this
      decreases depth, 2
      ensures |old(cells[i].children)| == 4
      ensures Valid() && Grows(old(cells), cells, old(parent), parent)
      ensures forall j | 0 <= j <= i :: cells[j] == old(cells[j])
      ensures OutsideKept(old(cells), cells, old(parent), i)
      ensures k <= 4 && (ok <==> k < 4)
      ensures ok ==> && Contains(Quadrant(old(cells[i].region), k), b.pos)
                     && Landed(cells, parent, old(cells[i].children)[k], at, b) && Landed(cells, parent, i, at, b)
      ensures forall k' | 0 <= k' < 4 && (k < k' || !Contains(Quadrant(old(cells[i].region), k'), b.pos)) ::
                BelowKept(old(cells), cells, old(parent), old(cells[i].children)[k'])
      ensures ok ==> AllBodies(cells) == AllBodies(old(cells)) + multiset{b}
      ensures !ok ==> AllBodies(cells) == AllBodies(old(cells))
      ensures (cells, ok) == InsertedIntoChildren(old(cells), capacity, old(cells[i].children), b, depth, 0)
    {
      ghost var cs0, par0, r := cells, parent, cells[i].region;
      var kids := cells[i].children;
      ChildrenAfter(cells, parent, capacity, i);
      assert CellOk(cs0, par0, capacity, i);
      ok, k, at := false, 4, 0;
      var t := 0;
      while t < 4
        invariant 0 <= t <= 4
        invariant Valid() && i < |cells| && |kids| == 4 && Inv(cs0, par0, capacity)
        invariant forall k' | 0 <= k' < 4 :: i < kids[k'] < |cs0| <= |cells|
        invariant forall j | 0 <= j <= i :: cells[j] == cs0[j]
        invariant Grows(cs0, cells, par0, parent)
        invariant AllBodies(cells) == AllBodies(cs0)
        invariant OutsideKept(cs0, cells, par0, i)
        invariant forall k' | 0 <= k' < 4 && (t <= k' || !Contains(Quadrant(r, k'), b.pos)) ::
                    BelowKept(cs0, cells, par0, kids[k'])
        invariant InsertedIntoChildren(cs0, capacity, kids, b, depth, 0) == InsertedIntoChildren(cells, capacity, kids, b, depth, t)
      {
        ghost var before, beforeParent := cells, parent;
        assert before[kids[t]] == cs0[kids[t]];
        var accepted;
        ghost var landed;
        accepted, landed := Insert(kids[t], b, depth - 1);
        GrowsTransitive(cs0, before, cells, par0, beforeParent, parent);
        ChildFrame(cs0, par0, capacity, i, t, before, beforeParent, cells);
        if accepted {
          ChildDescends(cs0, par0, capacity, i, t);
          DescendsPrefix(par0, parent, kids[t], i);
          DescendsTransitive(parent, landed, kids[t], i);
          assert Kept(before, cells, kids[t]);
          ok, k, at := true, t, landed;
          return;
        }
        t := t + 1;
      }
    }

    /** QuadTree.Subdivide on cell i: four fresh children after the arena's
        end, each body handed to the first child containing it, the cell's
        own bodies cleared. */
    method Subdivide(i: nat, depth: nat)
      requires Valid() && i < |cells| && cells[i].children == [] && 1 <= depth
      modifies this
      decreases depth, 3
      ensures Valid() && Grows(old(cells), cells, old(parent), parent)
      ensures |cells| == old(|cells|) + 4 && parent == old(parent) + [i, i, i, i]
      ensures forall j | 0 <= j < old(|cells|) && j != i :: cells[j] == old(cells[j])
      ensures cells[i] == old(cells[i]).(bodies := [], children := Kids(old(|cells|)))
      ensures forall j | old(|cells|) <= j < |cells| ::
                var k := j - old(|cells|);
                cells[j] == NewQuadTree(Quadrant(old(cells[i].region), k)).(bodies := InQuadrant(old(cells[i].region), old(cells[i].bodies), k))
      ensures AllBodies(cells) == AllBodies(old(cells))
    {
      var r := cells[i].region;
      var midX := r.x + r.width / 2.0;
      var midY := r.y + r.height / 2.0;
      var halfWidth := r.width / 2.0;
      var halfHeight := r.height / 2.0;
      var n := |cells|;
      var topLeft := NewQuadTree(Rect(r.x, r.y, halfWidth, halfHeight));
      var topRight := NewQuadTree(Rect(midX, r.y, halfWidth, halfHeight));
      var bottomLeft := NewQuadTree(Rect(r.x, midY, halfWidth, halfHeight));
      var bottomRight := NewQuadTree(Rect(midX, midY, halfWidth, halfHeight));
      assert [topLeft, topRight, bottomLeft, bottomRight] == Quadrants(r);
      SplitKeepsInv(cells, parent, capacity, i);
      SplitCells(cells, i);
      cells := (cells + [topLeft, topRight, bottomLeft, bottomRight])[i := cells[i].(children := Kids(n))];
      parent := parent + [i, i, i, i];
      Distribute(i, n, r, depth);
      SubdivideDone(old(cells), old(parent), cells, capacity, i);
      cells := cells[i := cells[i].(bodies := [])];
    }

    /** Subdivide's loop: every body of cell i, in order, handed to the first
        of the fresh children n..n+3 containing it. */
    method Distribute(i: nat, n: nat, r: Rect, depth: nat)
      requires Valid() && i < n && |cells| == n + 4 && 1 <= depth
      requires cells[i].region == r && cells[i].children == Kids(n)
      requires forall j | n <= j < n + 4 :: cells[j] == NewQuadTree(Quadrant(r, j - n))
      modifies this
      decreases depth, 2
      ensures Valid() && parent == old(parent) && |cells| == n + 4 && Grows(old(cells), cells, parent, parent)
      ensures forall j | 0 <= j < n :: cells[j] == old(cells[j])
      ensures forall j | n <= j < n + 4 :: cells[j] == NewQuadTree(Quadrant(r, j - n)).(bodies := InQuadrant(r, old(cells[i].bodies), j - n))
    {
      var bodies := cells[i].bodies;
      var t := 0;
      assert bodies[..t] == [];
      BodiesPlaced(cells, parent, capacity, i);
      while t < |bodies|
        invariant 0 <= t <= |bodies| <= capacity
        invariant forall b | b in bodies :: Contains(r, b.pos)
        invariant Valid() && |cells| == n + 4 && parent == old(parent) && Grows(old(cells), cells, parent, parent)
        invariant forall j | 0 <= j < n :: cells[j] == old(cells[j])
        invariant forall j | n <= j < n + 4 :: cells[j] == NewQuadTree(Quadrant(r, j - n)).(bodies := InQuadrant(r, bodies[..t], j - n))
      {
        var node := bodies[t];
        assert bodies[..t + 1] == bodies[..t] + [node];
        assert Contains(r, node.pos);
        ShareRoom(cells, n, r, bodies[..t], capacity);
        ghost var before := cells;
        Hand(n, r, node, depth);
        HandStep(before, cells, n, r, bodies[..t], node);
        GrowsTransitive(old(cells), before, cells, parent, parent, parent);
        t := t + 1;
      }
      assert bodies[..t] == bodies;
    }

    /** QuadTree.CalculateMasses on cell i, children before parent. On a
        subtree whose cells are as NewQuadTree left their mass fields, every
        cell below i receives its Mass and Centre and nothing else changes. */
    method CalculateMasses(i: nat)
      requires Valid() && i < |cells|
      requires forall j | 0 <= j < |cells| && Descends(parent, j, i) :: Unweighed(cells, j)
      modifies this
      decreases |cells| - i, 1
      ensures Valid() && parent == old(parent) && SameShape(old(cells), cells)
      ensures Ordered(old(cells))
      ensures forall j | 0 <= j < |cells| ::
                cells[j] == if Descends(parent, j, i) then Weighed(old(cells), j) else old(cells[j])
    {
      InvOrdered(cells, parent, capacity);
      ghost var cs0 := cells;
      ghost var par0 := parent;
      assert Unweighed(cells, i);
      var mass, center;
      if cells[i].children == [] {
        mass, center := LeafSums(cells[i].bodies);
      } else {
        mass, center := WeighChildren(i);
        KidsAbove(cs0, par0, capacity, i);
      }
      assert cells[i] == cs0[i];
      assert mass == Mass(cs0, i) && center == Accumulated(cs0, i);
      if mass != 0.0 {
        center := Vec2(center.x / mass, center.y / mass);
      }
      assert center == Centre(cs0, i);
      cells := cells[i := cells[i].(totalMass := mass, center := center)];
      forall j | 0 <= j < |cells|
        ensures cells[j] == if Descends(parent, j, i) then Weighed(cs0, j) else cs0[j]
      {
        if cs0[i].children != [] {
          KidsDescend(cs0, par0, capacity, i, j);
        } else if j != i && Descends(par0, j, i) {
          DescendsChild(cs0, par0, capacity, i, j);
        }
      }
      WeighedShape(cs0, cells);
      SameShapeKeepsInv(cs0, cells, parent, capacity);
    }

    /** CalculateMasses's loop over the four children of the internal cell
        i: each child weighed in turn, its mass and its centre weighted by
        its mass summed into the result. */
    method WeighChildren(i: nat) returns (mass: real, center: Vec2)
      requires Valid() && i < |cells| && cells[i].children != []
      requires forall j | 0 <= j < |cells| && Descends(parent, j, i) :: Unweighed(cells, j)
      modifies this
      decreases |cells| - i, 0
      ensures Valid() && parent == old(parent) && |cells| == old(|cells|)
      ensures Ordered(old(cells)) && |old(cells[i].children)| == 4
      ensures mass == ChildrenMass(old(cells), i, 4) && center == ChildrenAccumulated(old(cells), i, 4)
      ensures WeighedBelowKids(old(cells), cells, parent, old(cells[i].children), 4)
    {
      InvOrdered(cells, parent, capacity);
      ghost var cs0 := cells;
      ghost var par0 := parent;
      var kids := cells[i].children;
      ChildrenAfter(cells, parent, capacity, i);
      mass := 0.0;
      center := Zero;
      var k := 0;
      while k < 4
        invariant k <= 4 && |kids| == 4
        invariant Valid() && parent == par0 && |cells| == |cs0| && Inv(cs0, par0, capacity)
        invariant mass == ChildrenMass(cs0, i, k) && center == ChildrenAccumulated(cs0, i, k)
        invariant WeighedBelowKids(cs0, cells, par0, kids, k)
      {
        var kid := kids[k];
        KidUnweighed(cs0, cells, par0, capacity, i, k);
        ghost var before := cells;
        CalculateMasses(kid);
        KidWeighed(cs0, before, cells, par0, capacity, i, k);
        ChildrenStep(cs0, i, k);
        var child := cells[kid];
        mass := mass + child.totalMass;
        center := Add(center, Scale(child.center, child.totalMass));
        k := k + 1;
      }
    }

    /** The body of Subdivide's loop: `node` goes to the first of the four
        fresh children n..n+3 whose region contains it, which still has room. */
    method Hand(n: nat, r: Rect, node: Body, depth: nat)
      requires Valid() && n + 4 <= |cells| && Contains(r, node.pos) && 1 <= depth
      requires forall j | n <= j < n + 4 ::
                 cells[j].region == Quadrant(r, j - n) && cells[j].children == [] && |cells[j].bodies| < capacity
      modifies this
      decreases depth, 1
      ensures Valid() && parent == old(parent) && Grows(old(cells), cells, parent, parent)
      ensures var k := FirstQuadrant(r, node.pos);
              cells == old(cells)[n + k := old(cells[n + k]).(bodies := old(cells[n + k].bodies) + [node])]
    {
      var k := 0;
      while k < 4 && !Contains(cells[n + k].region, node.pos)
        invariant 0 <= k <= 4
        invariant forall j | 0 <= j < k :: !Contains(Quadrant(r, j), node.pos)
      {
        k := k + 1;
      }
      assert k == FirstQuadrant(r, node.pos) < 4;
      var inserted;
      ghost var at;
      inserted, at := Insert(n + k, node, depth - 1);
    }
  }

  /* ---------------- After CalculateMasses ---------------- */

  /** Every cell of cs carries the mass fields CalculateMasses gives it. */
  ghost predicate WeighedTree(cs: seq<Cell>)
  {
    && Ordered(cs)
    && forall j | 0 <= j < |cs| :: cs[j].totalMass == Mass(cs, j) && cs[j].center == Centre(cs, j)
  }

  /** The arena CalculateMasses from the root leaves: every cell weighed. */
  function WeighAll(cs: seq<Cell>): (ws: seq<Cell>)
    requires Ordered(cs)
  {
    seq(|cs|, j requires 0 <= j < |cs| => Weighed(cs, j))
  }

  /** Every cell lies below the root. */
  lemma {:induction false} BelowRoot(cs: seq<Cell>, par: seq<nat>, capacity: nat, j: nat)
    requires Inv(cs, par, capacity) && j < |cs|
    ensures Descends(par, j, 0)
    decreases j
  {
    if j != 0 {
      assert CellOk(cs, par, capacity, j);
      BelowRoot(cs, par, capacity, par[j]);
    }
  }

  /** Weighing a whole arena from the root leaves it a WeighedTree. */
  lemma WeighedFromRoot(cs: seq<Cell>, cs': seq<Cell>, par: seq<nat>, capacity: nat)
    requires Inv(cs, par, capacity) && Ordered(cs) && |cs'| == |cs|
    requires forall j | 0 <= j < |cs'| :: cs'[j] == if Descends(par, j, 0) then Weighed(cs, j) else cs[j]
    ensures WeighedTree(cs') && cs' == WeighAll(cs)
  {
    forall j | 0 <= j < |cs| ensures cs'[j] == Weighed(cs, j) {
      BelowRoot(cs, par, capacity, j);
    }
    WeighedShape(cs, cs');
    SameShapeOrdered(cs, cs');
    forall j | 0 <= j < |cs'| ensures cs'[j].totalMass == Mass(cs', j) && cs'[j].center == Centre(cs', j) {
      ShapeDecidesMass(cs, cs', j);
    }
  }

  /** In a weighed tree a leaf's mass is the total degree of its bodies, an
      internal cell's mass is the sum of its four children's masses, and a
      leaf of non-zero mass has its centre at the degree-weighted average
      position of its bodies, whatever the signs of the degrees. */
  lemma MassesAdd(cs: seq<Cell>, j: nat)
    requires WeighedTree(cs) && j < |cs|
    ensures cs[j].children == [] ==> cs[j].totalMass == SumDegrees(cs[j].bodies)
    ensures cs[j].children == [] && cs[j].totalMass != 0.0 ==>
              cs[j].center == Div(WeightedSum(cs[j].bodies), cs[j].totalMass)
    ensures cs[j].children != [] ==>
              && |cs[j].children| == 4 && (forall k | 0 <= k < 4 :: cs[j].children[k] < |cs|)
              && cs[j].totalMass == cs[cs[j].children[0]].totalMass + cs[cs[j].children[1]].totalMass
                                    + cs[cs[j].children[2]].totalMass + cs[cs[j].children[3]].totalMass
  {
    assert Layout(cs, j);
    if cs[j].children != [] {
      var kids := cs[j].children;
      assert ChildrenMass(cs, j, 1) == Mass(cs, kids[0]);
      assert ChildrenMass(cs, j, 2) == ChildrenMass(cs, j, 1) + Mass(cs, kids[1]);
      assert ChildrenMass(cs, j, 3) == ChildrenMass(cs, j, 2) + Mass(cs, kids[2]);
      assert ChildrenMass(cs, j, 4) == ChildrenMass(cs, j, 3) + Mass(cs, kids[3]);
    } else if cs[j].totalMass != 0.0 {
      assert Accumulated(cs, j) == WeightedSum(cs[j].bodies);
    }
  }

  /* ---------------- CalculateForce ---------------- */

  /** CalculateForce ignores a body, or a cell's centre, at squared distance
      below 0.1 from the query. */
  predicate Near(pos: Vec2, at: Vec2)
  {
    LengthSqr(Sub(pos, at)) < 0.1
  }

  /** The repulsion on `node` from mass `mass` at `at`: away from `at`, of
      size 10 times the product of the masses over the squared distance. */
  function Push(m: MathOps, node: Body, at: Vec2, mass: real): Vec2
    requires LengthSqr(Sub(node.pos, at)) != 0.0
  {
    var delta := Sub(node.pos, at);
    Scale(m.normalize(delta), 10.0 * (node.degree * mass) / LengthSqr(delta))
  }

  /** Newton's third law for one push: b pushes a exactly as hard as a
      pushes b, the other way. */
  lemma PushOdd(m: MathOps, a: Body, b: Body)
    requires NormalizeOdd(m) && LengthSqr(Sub(a.pos, b.pos)) != 0.0
    ensures LengthSqr(Sub(b.pos, a.pos)) == LengthSqr(Sub(a.pos, b.pos))
    ensures Push(m, b, a.pos, a.degree) == Neg(Push(m, a, b.pos, b.degree))
  {
    var delta := Sub(a.pos, b.pos);
    assert Sub(b.pos, a.pos) == Neg(delta);
    assert LengthSqr(Neg(delta)) == LengthSqr(delta);
    assert m.normalize(Neg(delta)) == Neg(m.normalize(delta));
    assert b.degree * a.degree == a.degree * b.degree;
  }

  /** CalculateForce's loop over the bodies of a leaf: the pushes of the
      bodies not near `node`, summed in order. */
  function LeafForce(m: MathOps, node: Body, bs: seq<Body>): (f: Vec2)
    ensures (forall j | 0 <= j < |bs| :: Near(node.pos, bs[j].pos)) ==> f == Zero
  {
    if bs == [] then Zero
    else
      var front := LeafForce(m, node, bs[..|bs| - 1]);
      var other := bs[|bs| - 1];
      if Near(node.pos, other.pos) then front else Add(front, Push(m, node, other.pos, other.degree))
  }

  /** The test `s / d < theta` on float32: when d is 0, s / d is +Inf or NaN
      (never below theta) unless s is negative, when it is -Inf. */
  predicate FarEnough(s: real, d: real, theta: real)
  {
    if d == 0.0 then s < 0.0 else s / d < theta
  }

  /** Away from d = 0 the test compares the width with theta times the
      distance; at d = 0 only a negative width passes. */
  lemma FarEnoughScaled(s: real, d: real, theta: real)
    ensures 0.0 < d ==> (FarEnough(s, d, theta) <==> s < theta * d)
    ensures d == 0.0 ==> (FarEnough(s, d, theta) <==> s < 0.0)
  {
    if 0.0 < d {
      assert s / d * d == s;
      if s / d < theta {
        assert s / d * d < theta * d;
      } else {
        assert theta * d <= s / d * d;
      }
    }
  }

  /** QuadTree.CalculateForce on cell i: a leaf sums the pushes of its
      bodies; an internal cell far enough away, as judged by its width over
      the distance to its centre, pushes as one body of its mass at its
      centre; otherwise the children's forces are summed. */
  function CalculateForce(m: MathOps, cs: seq<Cell>, i: nat, node: Body, theta: real): (f: Vec2)
    requires Ordered(cs) && i < |cs|
    ensures cs[i].children == [] && cs[i].bodies == [] ==> f == Zero
    decreases |cs| - i, 5
  {
    assert Layout(cs, i);
    var c := cs[i];
    if c.children == [] then LeafForce(m, node, c.bodies)
    else if FarEnough(c.region.width, Length(m, Sub(node.pos, c.center)), theta) then
      if Near(node.pos, c.center) then Zero else Push(m, node, c.center, c.totalMass)
    else ChildrenForce(m, cs, i, node, theta, 4)
  }

  /** The forces of the first k children of the internal cell i, summed. */
  function ChildrenForce(m: MathOps, cs: seq<Cell>, i: nat, node: Body, theta: real, k: nat): Vec2
    requires Ordered(cs) && i < |cs| && cs[i].children != [] && k <= 4
    decreases |cs| - i, k
  {
    assert Layout(cs, i);
    if k == 0 then Zero
    else Add(ChildrenForce(m, cs, i, node, theta, k - 1), CalculateForce(m, cs, cs[i].children[k - 1], node, theta))
  }

  lemma {:induction false} LeafForceConcat(m: MathOps, node: Body, a: seq<Body>, b: seq<Body>)
    ensures LeafForce(m, node, a + b) == Add(LeafForce(m, node, a), LeafForce(m, node, b))
    decreases |b|
  {
    if b == [] {
      assert a + b == a;
    } else {
      var n := |b| - 1;
      assert (a + b)[..|a + b| - 1] == a + b[..n];
      LeafForceConcat(m, node, a, b[..n]);
    }
  }

  /** A body near the query, the query's own body among them, adds nothing
      wherever it stands in a leaf. */
  lemma NearIgnored(m: MathOps, node: Body, a: seq<Body>, b: Body, c: seq<Body>)
    requires Near(node.pos, b.pos) || b.pos == node.pos
    ensures LeafForce(m, node, a + [b] + c) == LeafForce(m, node, a + c)
  {
    assert Near(node.pos, b.pos);
    LeafForceConcat(m, node, a + [b], c);
    LeafForceConcat(m, node, a, [b]);
    LeafForceConcat(m, node, a, c);
    assert [b][..0] == [];
  }

  /** Every cell of cs has a box of non-negative width. */
  ghost predicate NonNegWidths(cs: seq<Cell>)
  {
    forall j | 0 <= j < |cs| :: 0.0 <= cs[j].region.width
  }

  lemma {:induction false} WidthAt(cs: seq<Cell>, par: seq<nat>, capacity: nat, j: nat)
    requires Inv(cs, par, capacity) && 0.0 <= cs[0].region.width && j < |cs|
    ensures 0.0 <= cs[j].region.width
    decreases j
  {
    if j != 0 {
      assert CellOk(cs, par, capacity, j);
      var p := par[j];
      assert CellOk(cs, par, capacity, p);
      var k :| 0 <= k < |cs[p].children| && cs[p].children[k] == j;
      WidthAt(cs, par, capacity, p);
    }
  }

  /** Quadrants halve the width, so a root of non-negative width gives every
      cell a non-negative width. */
  lemma WidthsFromRoot(cs: seq<Cell>, par: seq<nat>, capacity: nat)
    requires Inv(cs, par, capacity) && 0.0 <= cs[0].region.width
    ensures NonNegWidths(cs)
  {
    forall j | 0 <= j < |cs| ensures 0.0 <= cs[j].region.width {
      WidthAt(cs, par, capacity, j);
    }
  }

  /** With theta <= 0 (and square roots non-negative) no cell is ever far
      enough, so CalculateForce is the exact sum of the pushes of all the
      bodies in the leaves below i. */
  lemma {:induction false} ExactWithoutTheta(m: MathOps, cs: seq<Cell>, i: nat, node: Body, theta: real)
    requires Ordered(cs) && i < |cs| && NonNegWidths(cs) && SqrtNonNegative(m) && theta <= 0.0
    ensures CalculateForce(m, cs, i, node, theta) == LeafForce(m, node, LeafBodies(cs, i))
    decreases |cs| - i, 5
  {
    assert Layout(cs, i);
    var c := cs[i];
    if c.children != [] {
      var d := Length(m, Sub(node.pos, c.center));
      assert 0.0 <= d;
      assert 0.0 <= c.region.width;
      if d != 0.0 {
        assert 0.0 <= c.region.width / d;
      }
      assert !FarEnough(c.region.width, d, theta);
      ExactChildren(m, cs, i, node, theta, 4);
    }
  }

  lemma {:induction false} ExactChildren(m: MathOps, cs: seq<Cell>, i: nat, node: Body, theta: real, k: nat)
    requires Ordered(cs) && i < |cs| && cs[i].children != [] && k <= 4
    requires NonNegWidths(cs) && SqrtNonNegative(m) && theta <= 0.0
    ensures ChildrenForce(m, cs, i, node, theta, k) == LeafForce(m, node, ChildrenLeafBodies(cs, i, k))
    decreases |cs| - i, k
  {
    assert Layout(cs, i);
    if k > 0 {
      var c := cs[i].children[k - 1];
      assert ChildrenForce(m, cs, i, node, theta, k)
          == Add(ChildrenForce(m, cs, i, node, theta, k - 1), CalculateForce(m, cs, c, node, theta));
      assert ChildrenLeafBodies(cs, i, k) == ChildrenLeafBodies(cs, i, k - 1) + LeafBodies(cs, c);
      ExactChildren(m, cs, i, node, theta, k - 1);
      ExactWithoutTheta(m, cs, c, node, theta);
      LeafForceConcat(m, node, ChildrenLeafBodies(cs, i, k - 1), LeafBodies(cs, c));
    }
  }

  /* ---------------- Zero mass as written ---------------- */

  datatype Option<T> = None | Some(value: T)

  /** The Center CalculateMasses leaves in cell i when, as written, it
      divides by a TotalMass of 0; None stands for a float32 that is not a
      finite number (NaN or an infinity). Such a centre stays non-finite
      through `Center += child.Center * child.TotalMass` in every cell
      above it. */
  function WrittenCentre(cs: seq<Cell>, i: nat): Option<Vec2>
    requires Ordered(cs) && i < |cs|
    decreases |cs| - i, 5
  {
    assert Layout(cs, i);
    var a := if cs[i].children == [] then Some(WeightedSum(cs[i].bodies)) else WrittenChildren(cs, i, 4);
    var mass := Mass(cs, i);
    if a.None? || mass == 0.0 then None else Some(Div(a.value, mass))
  }

  function WrittenChildren(cs: seq<Cell>, i: nat, k: nat): Option<Vec2>
    requires Ordered(cs) && i < |cs| && cs[i].children != [] && k <= 4
    decreases |cs| - i, k
  {
    assert Layout(cs, i);
    if k == 0 then Some(Zero)
    else
      var c := cs[i].children[k - 1];
      var front := WrittenChildren(cs, i, k - 1);
      var centre := WrittenCentre(cs, c);
      if front.None? || centre.None? then None else Some(Add(front.value, Scale(centre.value, Mass(cs, c))))
  }

  /** The arena Insert builds from a root over (0, 0, 2, 2) of capacity 1
      given a body at (0.5, 0.5) and then one at (1.5, 0.5): the root is
      split, the two bodies sit in the top quadrants, and the bottom two
      are empty. */
  function SplitRoot(): seq<Cell>
  {
    [ Cell(Rect(0.0, 0.0, 2.0, 2.0), [], Kids(1), 0.0, Zero),
      NewQuadTree(Rect(0.0, 0.0, 1.0, 1.0)).(bodies := [Body(Vec2(0.5, 0.5), 1.0)]),
      NewQuadTree(Rect(1.0, 0.0, 1.0, 1.0)).(bodies := [Body(Vec2(1.5, 0.5), 1.0)]),
      NewQuadTree(Rect(0.0, 1.0, 1.0, 1.0)), NewQuadTree(Rect(1.0, 1.0, 1.0, 1.0)) ]
  }

  /** Insertion reaches SplitRoot: the first body fills the root, the second
      splits it and, refused by the top-left quadrant, lands in the
      top-right one. */
  lemma SplitRootReached()
    ensures var once := Inserted([NewQuadTree(Rect(0.0, 0.0, 2.0, 2.0))], 1, 0, Body(Vec2(0.5, 0.5), 1.0), 1);
            && once.1
            && Inserted(once.0, 1, 0, Body(Vec2(1.5, 0.5), 1.0), 1) == (SplitRoot(), true)
  {
    var r := Rect(0.0, 0.0, 2.0, 2.0);
    var a, b := Body(Vec2(0.5, 0.5), 1.0), Body(Vec2(1.5, 0.5), 1.0);
    var root := NewQuadTree(r);
    var once := [root.(bodies := [a])];
    assert Contains(r, a.pos) && [] + [a] == [a];
    assert [root][0 := root.(bodies := [] + [a])] == once;
    assert Inserted([root], 1, 0, a, 1) == (once, true);
    SplitOnce(r, a);
    var split := Subdivided(once, 0);
    var cs := SplitRoot();
    assert split == cs[2 := cs[2].(bodies := [])] by {
      assert |split| == 5;
      assert split[0] == cs[0] && split[1] == cs[1] && split[3] == cs[3] && split[4] == cs[4];
      assert split[2] == cs[2].(bodies := []);
    }
    assert !Contains(split[1].region, b.pos);
    assert Inserted(split, 1, 1, b, 0) == (split, false);
    assert Contains(split[2].region, b.pos) && [] + [b] == [b];
    assert split[2 := split[2].(bodies := [] + [b])] == cs;
    assert Inserted(split, 1, 2, b, 0) == (cs, true);
    assert InsertedIntoChildren(split, 1, Kids(1), b, 1, 1) == (cs, true);
    assert InsertedIntoChildren(split, 1, Kids(1), b, 1, 0) == (cs, true);
  }

  /** The quadrants of (0, 0, 2, 2), and the share each gets of a lone body
      at (0.5, 0.5). */
  lemma SplitOnce(r: Rect, a: Body)
    requires r == Rect(0.0, 0.0, 2.0, 2.0) && a == Body(Vec2(0.5, 0.5), 1.0)
    ensures Quadrant(r, 0) == Rect(0.0, 0.0, 1.0, 1.0) && Quadrant(r, 1) == Rect(1.0, 0.0, 1.0, 1.0)
    ensures Quadrant(r, 2) == Rect(0.0, 1.0, 1.0, 1.0) && Quadrant(r, 3) == Rect(1.0, 1.0, 1.0, 1.0)
    ensures InQuadrant(r, [a], 0) == [a]
    ensures InQuadrant(r, [a], 1) == [] && InQuadrant(r, [a], 2) == [] && InQuadrant(r, [a], 3) == []
  {
    assert FirstQuadrant(r, a.pos) == 0;
    assert [a][..0] == [];
  }

  lemma SplitRootTree()
    ensures Inv(SplitRoot(), [0, 0, 0, 0, 0], 1) && NonNegDegrees(SplitRoot()) && Ordered(SplitRoot())
  {
    var cs := SplitRoot();
    var par: seq<nat> := [0, 0, 0, 0, 0];
    forall j | 0 <= j < 5 ensures CellOk(cs, par, 1, j) {
      assert Layout(cs, j);
    }
    InvOrdered(cs, par, 1);
  }

  lemma SplitRootMasses()
    requires Ordered(SplitRoot())
    ensures Mass(SplitRoot(), 1) == 1.0 && Centre(SplitRoot(), 1) == Vec2(0.5, 0.5)
    ensures Mass(SplitRoot(), 2) == 1.0 && Centre(SplitRoot(), 2) == Vec2(1.5, 0.5)
    ensures Mass(SplitRoot(), 3) == 0.0 && Mass(SplitRoot(), 4) == 0.0
  {
    var cs := SplitRoot();
    var a, b := Body(Vec2(0.5, 0.5), 1.0), Body(Vec2(1.5, 0.5), 1.0);
    assert cs[1].bodies == [a] && [a][..0] == [];
    assert cs[2].bodies == [b] && [b][..0] == [];
    assert Layout(cs, 1) && Layout(cs, 2) && Layout(cs, 3) && Layout(cs, 4);
  }

  /** The root of SplitRoot has mass 2, accumulates (2, 1) and so has its
      centre at (1, 0.5). */
  lemma SplitRootWeight()
    requires Ordered(SplitRoot())
    ensures Mass(SplitRoot(), 0) == 2.0 && Accumulated(SplitRoot(), 0) == Vec2(2.0, 1.0)
    ensures Centre(SplitRoot(), 0) == Vec2(1.0, 0.5)
  {
    var cs := SplitRoot();
    SplitRootMasses();
    assert Layout(cs, 0) && Layout(cs, 3) && Layout(cs, 4);
    assert cs[0].children == [1, 2, 3, 4];
    assert Centre(cs, 3) == Zero && Centre(cs, 4) == Zero;
    assert ChildrenMass(cs, 0, 2) == 2.0;
    assert ChildrenMass(cs, 0, 4) == 2.0;
    assert ChildrenAccumulated(cs, 0, 2) == Vec2(2.0, 1.0);
    assert ChildrenAccumulated(cs, 0, 4) == Vec2(2.0, 1.0);
    assert Div(Vec2(2.0, 1.0), 2.0) == Vec2(1.0, 0.5);
  }

  /** As written, the empty bottom quadrants make the root's centre
      non-finite although the root has mass 2 and its bodies are at
      (0.5, 0.5) and (1.5, 0.5). */
  lemma WrittenCentreLost()
    ensures Inv(SplitRoot(), [0, 0, 0, 0, 0], 1) && NonNegDegrees(SplitRoot())
    ensures Mass(SplitRoot(), 0) == 2.0
    ensures WrittenCentre(SplitRoot(), 0) == None
    ensures Centre(SplitRoot(), 0) == Vec2(1.0, 0.5)
  {
    SplitRootTree();
    SplitRootWeight();
    SplitRootWritten();
  }

  /** The as-written centre of the empty bottom-left quadrant is lost, and
      with it the root's. */
  lemma SplitRootWritten()
    requires Ordered(SplitRoot())
    ensures WrittenCentre(SplitRoot(), 0) == None
  {
    var cs := SplitRoot();
    assert Layout(cs, 0) && Layout(cs, 3);
    assert cs[3].bodies == [] && cs[3].children == [];
    assert Mass(cs, 3) == 0.0;
    assert WrittenCentre(cs, 3) == None;
    assert WrittenChildren(cs, 0, 3) == None;
    assert WrittenChildren(cs, 0, 4) == None;
  }
}
