/** The graph traversal demonstration: seven nodes A to G joined by nine
    undirected edges, a start node chosen by clicking, and breadth-first
    and depth-first walks from it that report each node they visit. Node
    colours are not modelled. */
module Graph {
  import opened Common
  import opened Resources
  import opened Graphics
  import opened Lifecycle

  /** Each node's neighbours, in the order its edges were added. */
  type Adjacency = map<string, seq<string>>

  const BOX := "box"
  const NODE_BOX: seq<string> := ["1", "1", "1"]
  const NODE_IDS: seq<string> := ["A", "B", "C", "D", "E", "F", "G"]
  const EDGE_LIST: seq<(string, string)> :=
    [("A", "B"), ("A", "E"), ("B", "C"), ("B", "F"), ("C", "D"), ("C", "F"), ("D", "G"), ("E", "F"), ("F", "G")]

  const NO_START := Notice(Error, "Error: Please select a starting node first.")

  function Elements(s: seq<string>): set<string> {
    set x | x in s
  }

  predicate NoDups(s: seq<string>) {
    forall p, q :: 0 <= p < q < |s| ==> s[p] != s[q]
  }

  lemma TakeOneMore<T>(s: seq<T>, k: nat)
    requires k < |s|
    ensures s[..k + 1] == s[..k] + [s[k]]
  {
  }

  lemma TakeAll<T>(s: seq<T>)
    ensures s[..|s|] == s
  {
  }

  lemma ElementsAppend(a: seq<string>, b: seq<string>)
    ensures Elements(a + b) == Elements(a) + Elements(b)
  {
  }

  /** Two runs without repeats and without common elements make one. */
  lemma NoDupsAppend(a: seq<string>, b: seq<string>)
    requires NoDups(a) && NoDups(b) && Elements(a) !! Elements(b)
    ensures NoDups(a + b)
  {
    forall p, q | 0 <= p < q < |a + b|
      ensures (a + b)[p] != (a + b)[q]
    {
      if p < |a| && q >= |a| {
        assert (a + b)[p] in Elements(a) && (a + b)[q] in Elements(b);
      }
    }
  }

  // ---------------------------------------------------------------
  // Building the adjacency
  // ---------------------------------------------------------------

  /** Every node named as a neighbour is a node. */
  ghost predicate WellFormed(g: Adjacency) {
    forall v, w :: v in g && w in g[v] ==> w in g
  }

  /** Whenever `b` is a neighbour of `a`, `a` is one of `b`. */
  ghost predicate Symmetric(g: Adjacency) {
    forall a, b :: a in g && b in g[a] ==> b in g && a in g[b]
  }

  /** Every edge of `edges` joins two nodes of `ids`. */
  predicate Joins(ids: set<string>, edges: seq<(string, string)>) {
    forall k :: 0 <= k < |edges| ==> edges[k].0 in ids && edges[k].1 in ids
  }

  /** The undirected edge `a`-`b`: `b` joins `a`'s neighbours, then `a`
      joins `b`'s. */
  function AddEdge(g: Adjacency, a: string, b: string): (h: Adjacency)
    requires a in g && b in g
    ensures h.Keys == g.Keys
    ensures forall v :: v in g ==> h[v] == g[v] + Ends((a, b), v)
  {
    var g1 := g[a := g[a] + [b]];
    g1[b := g1[b] + [a]]
  }

  /** The other ends of one edge, seen from `v`. */
  function Ends(e: (string, string), v: string): seq<string> {
    (if e.0 == v then [e.1] else []) + (if e.1 == v then [e.0] else [])
  }

  /** The other ends of the edges at `v`, in the order they are listed. */
  function Neighbours(edges: seq<(string, string)>, v: string): seq<string>
    decreases |edges|
  {
    if edges == [] then [] else Ends(edges[0], v) + Neighbours(edges[1..], v)
  }

  /** The adjacency that adding `edges` in order to the nodes `ids`
      produces: each node's neighbours are the other ends of its edges, in
      the order listed. */
  ghost predicate Built(g: Adjacency, ids: set<string>, edges: seq<(string, string)>) {
    g.Keys == ids && forall v :: v in g ==> g[v] == Neighbours(edges, v)
  }

  /** One more edge appends its other ends to the neighbours. */
  lemma {:induction false} NeighboursSnoc(edges: seq<(string, string)>, e: (string, string), v: string)
    ensures Neighbours(edges + [e], v) == Neighbours(edges, v) + Ends(e, v)
    decreases |edges|
  {
    SnocSplits(edges, e);
    if edges != [] {
      NeighboursSnoc(edges[1..], e, v);
    }
  }

  /** Adding the next edge extends the adjacency built from the edges
      before it. */
  lemma AddEdgeBuilds(g: Adjacency, ids: set<string>, edges: seq<(string, string)>, e: (string, string))
    requires Built(g, ids, edges) && e.0 in ids && e.1 in ids
    ensures Built(AddEdge(g, e.0, e.1), ids, edges + [e])
  {
    forall v | v in g
      ensures AddEdge(g, e.0, e.1)[v] == Neighbours(edges + [e], v)
    {
      NeighboursSnoc(edges, e, v);
    }
  }

  /** Everything named as a neighbour is an end of some edge. */
  lemma {:induction false} NeighboursJoin(ids: set<string>, edges: seq<(string, string)>, v: string, w: string)
    requires Joins(ids, edges) && w in Neighbours(edges, v)
    ensures w in ids
    decreases |edges|
  {
    if w !in Ends(edges[0], v) {
      NeighboursJoin(ids, edges[1..], v, w);
    }
  }

  /** Edges are undirected: `w` is a neighbour of `v` exactly when `v` is
      one of `w`. */
  lemma {:induction false} NeighboursSymmetric(edges: seq<(string, string)>, v: string, w: string)
    requires w in Neighbours(edges, v)
    ensures v in Neighbours(edges, w)
    decreases |edges|
  {
    if w !in Ends(edges[0], v) {
      NeighboursSymmetric(edges[1..], v, w);
    }
  }

  /** An adjacency built from edges between its nodes is well formed and
      symmetric. */
  lemma BuiltSymmetric(g: Adjacency, ids: set<string>, edges: seq<(string, string)>)
    requires Built(g, ids, edges) && Joins(ids, edges)
    ensures WellFormed(g) && Symmetric(g)
  {
    forall a, b | a in g && b in g[a]
      ensures b in g && a in g[b]
    {
      NeighboursJoin(ids, edges, a, b);
      NeighboursSymmetric(edges, a, b);
    }
  }

  /** The demonstration graph: the listed nodes with the listed edges. */
  ghost predicate IsDemo(g: Adjacency) {
    Built(g, Elements(NODE_IDS), EDGE_LIST)
  }

  /** Every listed edge joins two listed nodes. */
  lemma EdgesJoinNodes()
    ensures Joins(Elements(NODE_IDS), EDGE_LIST)
  {
    assert Elements(NODE_IDS) == {"A", "B", "C", "D", "E", "F", "G"};
  }

  /** The demonstration graph has the seven nodes A to G, each with its
      neighbours in the order the edges are listed, and is well formed and
      symmetric. */
  lemma DemoShape(g: Adjacency)
    requires IsDemo(g)
    ensures g.Keys == {"A", "B", "C", "D", "E", "F", "G"}
    ensures g["A"] == ["B", "E"] && g["B"] == ["A", "C", "F"] && g["C"] == ["B", "D", "F"]
    ensures g["D"] == ["C", "G"] && g["E"] == ["A", "F"] && g["F"] == ["B", "C", "E", "G"]
    ensures g["G"] == ["D", "F"]
    ensures WellFormed(g) && Symmetric(g)
  {
    DemoNodes(g);
    DemoFirstNeighbours(g);
    DemoLastNeighbours(g);
    EdgesJoinNodes();
    BuiltSymmetric(g, Elements(NODE_IDS), EDGE_LIST);
  }

  lemma DemoNodes(g: Adjacency)
    requires IsDemo(g)
    ensures g.Keys == {"A", "B", "C", "D", "E", "F", "G"}
  {
    assert Elements(NODE_IDS) == {"A", "B", "C", "D", "E", "F", "G"};
  }

  lemma DemoFirstNeighbours(g: Adjacency)
    requires IsDemo(g) && g.Keys == {"A", "B", "C", "D", "E", "F", "G"}
    ensures g["A"] == ["B", "E"] && g["B"] == ["A", "C", "F"] && g["C"] == ["B", "D", "F"]
  {
    NeighboursA(); NeighboursB(); NeighboursC();
  }

  lemma DemoLastNeighbours(g: Adjacency)
    requires IsDemo(g) && g.Keys == {"A", "B", "C", "D", "E", "F", "G"}
    ensures g["D"] == ["C", "G"] && g["E"] == ["A", "F"] && g["F"] == ["B", "C", "E", "G"]
    ensures g["G"] == ["D", "F"]
  {
    NeighboursD(); NeighboursE(); NeighboursF(); NeighboursG();
  }

  lemma NeighboursA()
    ensures Neighbours(EDGE_LIST, "A") == ["B", "E"]
  {
  }

  lemma NeighboursB()
    ensures Neighbours(EDGE_LIST, "B") == ["A", "C", "F"]
  {
  }

  lemma NeighboursC()
    ensures Neighbours(EDGE_LIST, "C") == ["B", "D", "F"]
  {
  }

  lemma NeighboursD()
    ensures Neighbours(EDGE_LIST, "D") == ["C", "G"]
  {
  }

  lemma NeighboursE()
    ensures Neighbours(EDGE_LIST, "E") == ["A", "F"]
  {
  }

  lemma NeighboursF()
    ensures Neighbours(EDGE_LIST, "F") == ["B", "C", "E", "G"]
  {
  }

  lemma NeighboursG()
    ensures Neighbours(EDGE_LIST, "G") == ["D", "F"]
  {
  }

  // ---------------------------------------------------------------
  // Reachability
  // ---------------------------------------------------------------

  /** `p` steps from node to neighbour. */
  ghost predicate IsWalk(g: Adjacency, p: seq<string>) {
    |p| > 0 && forall k :: 0 <= k < |p| - 1 ==> p[k] in g && p[k + 1] in g[p[k]]
  }

  ghost predicate Reachable(g: Adjacency, s: string, t: string) {
    exists p :: IsWalk(g, p) && p[0] == s && p[|p| - 1] == t
  }

  /** No neighbour of a node of `S` is outside `S`. */
  ghost predicate Closed(g: Adjacency, S: set<string>) {
    forall v, w :: v in S && v in g && w in g[v] ==> w in S
  }

  lemma ReachSelf(g: Adjacency, s: string)
    ensures Reachable(g, s, s)
  {
    assert IsWalk(g, [s]);
  }

  /** A neighbour of a reachable node is reachable. */
  lemma ReachExtend(g: Adjacency, s: string, a: string, b: string)
    requires Reachable(g, s, a) && a in g && b in g[a]
    ensures Reachable(g, s, b)
  {
    var p :| IsWalk(g, p) && p[0] == s && p[|p| - 1] == a;
    assert IsWalk(g, p + [b]);
  }

  /** `p` is a walk that starts at `s`: the shape of the depth-first
      walk's stack, the path from the start to the node being visited. */
  ghost predicate PathFrom(g: Adjacency, s: string, p: seq<string>) {
    IsWalk(g, p) && p[0] == s
  }

  /** Stepping from the end of a path to a neighbour gives a path from
      the same start. */
  lemma PathExtend(g: Adjacency, s: string, p: seq<string>, w: string)
    requires PathFrom(g, s, p) && p[|p| - 1] in g && w in g[p[|p| - 1]]
    ensures PathFrom(g, s, p + [w]) && Reachable(g, s, w)
  {
    var q := p + [w];
    forall k | 0 <= k < |q| - 1
      ensures q[k] in g && q[k + 1] in g[q[k]]
    {
      if k < |p| - 1 {
        assert q[k] == p[k] && q[k + 1] == p[k + 1];
      }
    }
  }

  /** What is reachable from a neighbour is reachable. */
  lemma ReachPrepend(g: Adjacency, a: string, b: string, t: string)
    requires a in g && b in g[a] && Reachable(g, b, t)
    ensures Reachable(g, a, t)
  {
    var p :| IsWalk(g, p) && p[0] == b && p[|p| - 1] == t;
    assert IsWalk(g, [a] + p);
  }

  /** A set holding `s` that no edge leaves holds everything reachable
      from `s`. */
  lemma ClosedHoldsReachable(g: Adjacency, S: set<string>, s: string, t: string)
    requires s in S && Closed(g, S) && Reachable(g, s, t)
    ensures t in S
  {
    var p :| IsWalk(g, p) && p[0] == s && p[|p| - 1] == t;
    var k := 0;
    while k < |p| - 1
      invariant 0 <= k < |p| && p[k] in S
    {
      k := k + 1;
    }
  }

  /** The neighbours in `ns` that are not in `seen`, in order, each once:
      the nodes the breadth-first walk discovers from one node. */
  function Unseen(ns: seq<string>, seen: set<string>): (r: seq<string>)
    ensures Elements(r) == Elements(ns) - seen && NoDups(r)
    decreases |ns|
  {
    if ns == [] then []
    else if ns[0] in seen then Unseen(ns[1..], seen)
    else
      var r := Unseen(ns[1..], seen + {ns[0]});
      assert Elements([ns[0]]) == {ns[0]};
      assert Elements([ns[0]] + r) == {ns[0]} + Elements(r);
      NoDupsAppend([ns[0]], r);
      [ns[0]] + r
  }

  /** The breadth-first visiting order from the queue `queue`, with the
      nodes `visited` marked: the front is visited, and its unmarked
      neighbours are marked and queued, in adjacency order. */
  function BfsOrder(g: Adjacency, queue: seq<string>, visited: set<string>): seq<string>
    requires WellFormed(g)
    decreases g.Keys - visited, |queue|
  {
    if queue == [] then []
    else
      var cur := queue[0];
      var ns := if cur in g then g[cur] else [];
      var found := Unseen(ns, visited);
      assert found != [] ==> found[0] in Elements(found) && found[0] in ns && cur in g && found[0] in g.Keys - visited;
      [cur] + BfsOrder(g, queue[1..] + found, visited + Elements(ns))
  }

  /** One step of the breadth-first order: the front, then the order
      from the queue its unmarked neighbours extend. */
  lemma BfsOrderStep(g: Adjacency, queue: seq<string>, visited: set<string>)
    requires WellFormed(g) && |queue| > 0 && queue[0] in g
    ensures BfsOrder(g, queue, visited)
            == [queue[0]] + BfsOrder(g, queue[1..] + Unseen(g[queue[0]], visited), visited + Elements(g[queue[0]]))
  {
  }

  /** The breadth-first walk's invariant: the marked nodes are the
      visited and the queued ones, none twice, all reachable from the
      start, and every neighbour of a visited node is marked. */
  ghost predicate BfsInv(g: Adjacency, start: string, order: seq<string>, queue: seq<string>, visited: set<string>) {
    (forall v :: v in visited <==> v in order || v in queue) && visited <= g.Keys
    && NoDups(order + queue)
    && (forall v :: v in visited ==> Reachable(g, start, v))
    && (forall v, w :: v in order && v in g && w in g[v] ==> w in visited)
  }

  /** Visiting the front of the queue and queueing its unmarked neighbours
      keeps the invariant, and the visited node was not visited before. */
  lemma BfsStep(g: Adjacency, start: string, order: seq<string>, queue: seq<string>, visited: set<string>)
    requires WellFormed(g) && BfsInv(g, start, order, queue, visited) && |queue| > 0
    ensures queue[0] in g && queue[0] !in Elements(order)
    ensures var cur := queue[0];
            BfsInv(g, start, order + [cur], queue[1..] + Unseen(g[cur], visited), visited + Elements(g[cur]))
  {
    var cur := queue[0];
    assert (order + queue)[|order|] == cur;
    assert cur in visited;
    var order', rest, found := order + [cur], queue[1..], Unseen(g[cur], visited);
    var visited' := visited + Elements(g[cur]);
    assert queue == [cur] + rest;
    assert order' + rest == order + queue;
    forall p | 0 <= p < |order|
      ensures order[p] != cur
    {
      assert (order + queue)[p] == order[p];
    }
    forall v | v in Elements(order' + rest)
      ensures v in visited
    {
      assert v in order' || v in rest;
    }
    NoDupsAppend(order' + rest, found);
    assert order' + (rest + found) == order' + rest + found;
    forall v
      ensures v in visited' <==> v in order' || v in rest + found
    {
      assert v in rest + found <==> v in rest || v in found;
      assert v in found <==> v in Elements(found);
      assert v in found <==> v in Elements(g[cur]) && v !in visited;
      if v in visited {
        assert v in order || v in queue;
      }
    }
    forall w | w in Elements(g[cur])
      ensures Reachable(g, start, w)
    {
      ReachExtend(g, start, cur, w);
    }
    assert forall v, w :: v in order' && v in g && w in g[v] ==> w in visited' by {
      forall v, w | v in order' && v in g && w in g[v]
        ensures w in visited'
      {
        if v != cur {
          assert v in order;
        }
      }
    }
  }

  /** Visiting the front keeps both the invariant and the order still to
      come: what is visited so far, followed by the order from the new
      queue, is still the whole order. */
  lemma BfsAdvance(g: Adjacency, start: string, order: seq<string>, queue: seq<string>, visited: set<string>)
    requires WellFormed(g) && BfsInv(g, start, order, queue, visited) && |queue| > 0
    ensures var cur := queue[0];
            var queue', visited' := queue[1..] + Unseen(g[cur], visited), visited + Elements(g[cur]);
            cur in g && Elements(order + [cur]) == Elements(order) + {cur} && cur !in Elements(order)
            && BfsInv(g, start, order + [cur], queue', visited')
            && order + BfsOrder(g, queue, visited) == order + [cur] + BfsOrder(g, queue', visited')
  {
    var cur := queue[0];
    BfsStep(g, start, order, queue, visited);
    BfsOrderStep(g, queue, visited);
    AppendAssoc(order, [cur], BfsOrder(g, queue[1..] + Unseen(g[cur], visited), visited + Elements(g[cur])));
  }

  /** With the queue empty, the visited nodes are exactly those reachable
      from the start. */
  lemma BfsDone(g: Adjacency, start: string, order: seq<string>, visited: set<string>)
    requires BfsInv(g, start, order, [], visited) && |order| > 0 && order[0] == start
    ensures NoDups(order) && forall v :: v in order <==> Reachable(g, start, v)
  {
    assert order + [] == order;
    assert Closed(g, visited);
    forall t | Reachable(g, start, t)
      ensures t in order
    {
      ClosedHoldsReachable(g, visited, start, t);
    }
  }

  /** The depth-first visiting order from `id`, with the nodes `visited`
      already visited: `id` itself, then, for each of its neighbours in
      adjacency order still unvisited when its turn comes, the order from
      that neighbour. */
  function DfsOrder(g: Adjacency, id: string, visited: set<string>): seq<string>
    decreases g.Keys - visited, 0, 0
  {
    if id !in g || id in visited then [] else [id] + DfsList(g, g[id], visited + {id})
  }

  /** The depth-first order from the neighbours `ns`, taken in turn. */
  function DfsList(g: Adjacency, ns: seq<string>, visited: set<string>): seq<string>
    decreases g.Keys - visited, 1, |ns|
  {
    if ns == [] then []
    else if ns[0] in visited then DfsList(g, ns[1..], visited)
    else
      var o := DfsOrder(g, ns[0], visited);
      o + DfsList(g, ns[1..], visited + Elements(o))
  }

  /** The order from an unvisited node starts with it, then goes through
      its neighbours. */
  lemma DfsOrderStep(g: Adjacency, id: string, visited: set<string>)
    requires id in g && id !in visited
    ensures DfsOrder(g, id, visited) == [id] + DfsList(g, g[id], visited + {id})
  {
  }

  /** Going through the neighbours from index `k`, after `done` has been
      recorded: a visited one is passed over, an unvisited one contributes
      its own order first. */
  lemma DfsListStep(g: Adjacency, ns: seq<string>, k: nat, visited: set<string>, done: seq<string>)
    requires k < |ns|
    ensures ns[k] in visited ==> DfsList(g, ns[k..], visited) == DfsList(g, ns[k + 1..], visited)
    ensures ns[k] !in visited ==>
              var o := DfsOrder(g, ns[k], visited);
              DfsList(g, ns[k..], visited) == o + DfsList(g, ns[k + 1..], visited + Elements(o))
              && done + DfsList(g, ns[k..], visited) == done + o + DfsList(g, ns[k + 1..], visited + Elements(o))
  {
    assert ns[k..][0] == ns[k] && ns[k..][1..] == ns[k + 1..];
    if ns[k] !in visited {
      var o := DfsOrder(g, ns[k], visited);
      AppendAssoc(done, o, DfsList(g, ns[k + 1..], visited + Elements(o)));
    }
  }

  /** The depth-first walk's invariant: the visited nodes are those
      recorded, each once, all reachable from the start, and every visited
      node no longer on the stack has all its neighbours visited. */
  ghost predicate DfsInv(g: Adjacency, start: string, visited: set<string>, order: seq<string>, stack: seq<string>) {
    Elements(order) == visited && NoDups(order) && visited <= g.Keys
    && (forall v :: v in visited ==> Reachable(g, start, v))
    && (forall v, w :: v in visited && v !in stack && v in g && w in g[v] ==> w in visited)
  }

  /** With the stack empty, the visited nodes are exactly those reachable
      from the start. */
  lemma DfsDone(g: Adjacency, start: string, visited: set<string>, order: seq<string>)
    requires DfsInv(g, start, visited, order, []) && start in visited
    ensures NoDups(order) && forall v :: v in order <==> Reachable(g, start, v)
  {
    assert Closed(g, visited);
    forall t | Reachable(g, start, t)
      ensures t in order
    {
      ClosedHoldsReachable(g, visited, start, t);
      assert t in Elements(order);
    }
    forall t | t in order
      ensures Reachable(g, start, t)
    {
      assert t in Elements(order);
    }
  }

  // ---------------------------------------------------------------
  // The module
  // ---------------------------------------------------------------

  class GraphModule {
    const base: ModuleBase
    const gfx: GraphicsEngine
    var nodes: Adjacency
    var startNode: Option<string>

    ghost predicate Valid()
      reads this, base, gfx, gfx.resources
    {
      base.gfx == gfx && gfx.Valid() && WellFormed(nodes)
      && (startNode.Some? ==> startNode.value in nodes)
    }

    /** A fresh module shows the demonstration graph without a start
        node. */
    constructor (engine: GraphicsEngine)
      requires engine.Valid()
      modifies engine, engine.hoveredObject, engine.resources
      ensures Valid() && gfx == engine && fresh(base) && !base.cancelToken
      ensures IsDemo(nodes) && startNode == None
    {
      base := new ModuleBase(engine);
      gfx := engine;
      nodes := map[];
      startNode := None;
      new;
      CreateGraph();
    }

    /** Clears the scene and builds the graph: one box per node, labelled
        with its id, then one arrow per edge, in the listed order. */
    method CreateGraph()
      requires Valid()
      modifies this, gfx, gfx.resources, gfx.hoveredObject
      ensures Valid() && IsDemo(nodes) && startNode == None
      ensures |gfx.objects| == |NODE_IDS| && |gfx.arrows| == |EDGE_LIST|
    {
      gfx.Clear();
      nodes := map[];
      startNode := None;
      PlaceNodes();
      JoinEdges();
    }

    /** One box per listed node, in order; each node starts without
        neighbours. */
    method PlaceNodes()
      requires Valid() && nodes == map[] && gfx.objects == [] && gfx.arrows == []
      modifies this`nodes, gfx, gfx.resources
      ensures Valid() && Built(nodes, Elements(NODE_IDS), [])
      ensures |gfx.objects| == |NODE_IDS| && gfx.arrows == []
      ensures forall k :: 0 <= k < |NODE_IDS| ==> gfx.objects[k].hoverText == Some([Field("Node", Words(NODE_IDS[k]))])
    {
      var i := 0;
      while i < |NODE_IDS|
        invariant Valid() && 0 <= i <= |NODE_IDS|
        invariant Built(nodes, Elements(NODE_IDS[..i]), [])
        invariant |gfx.objects| == i && gfx.arrows == []
        invariant forall k :: 0 <= k < i ==> gfx.objects[k].hoverText == Some([Field("Node", Words(NODE_IDS[k]))])
      {
        var id := NODE_IDS[i];
        var mesh := AddNode(id);
        nodes := nodes[id := []];
        assert Elements(NODE_IDS[..i + 1]) == Elements(NODE_IDS[..i]) + {id} by {
          assert NODE_IDS[..i + 1] == NODE_IDS[..i] + [id];
        }
        i := i + 1;
      }
      assert NODE_IDS[..i] == NODE_IDS;
    }

    /** One arrow per listed edge; each edge's ends join each other's
        neighbours. */
    method JoinEdges()
      requires Valid() && Built(nodes, Elements(NODE_IDS), []) && |gfx.objects| == |NODE_IDS| && gfx.arrows == []
      modifies this`nodes, gfx, gfx.resources
      ensures Valid() && IsDemo(nodes)
      ensures |gfx.objects| == |NODE_IDS| && |gfx.arrows| == |EDGE_LIST|
    {
      EdgesJoinNodes();
      var k := 0;
      while k < |EDGE_LIST|
        invariant 0 <= k <= |EDGE_LIST| && gfx.Valid()
        invariant Built(nodes, Elements(NODE_IDS), EDGE_LIST[..k])
        invariant |gfx.objects| == |NODE_IDS| && |gfx.arrows| == k
      {
        var edge := EDGE_LIST[k];
        gfx.AddArrow(WHITE, None);
        AddEdgeBuilds(nodes, Elements(NODE_IDS), EDGE_LIST[..k], edge);
        nodes := AddEdge(nodes, edge.0, edge.1);
        TakeOneMore(EDGE_LIST, k);
        k := k + 1;
      }
      TakeAll(EDGE_LIST);
      BuiltSymmetric(nodes, Elements(NODE_IDS), EDGE_LIST);
    }

    /** Depth-first walk from the start node: each node is recorded when
        it is first reached, then its unvisited neighbours are explored in
        adjacency order, so the order is `DfsOrder`. The walk records
        exactly the nodes reachable from the start, each once. Without a
        start node nothing is visited; a torn-down module stops after
        visiting the start. */
    method RunDfs() returns (order: seq<string>, status: Status)
      requires Valid()
      ensures startNode.None? ==> status == Rejected(NO_START) && order == []
      ensures startNode.Some? ==>
                status == (if base.cancelToken then Cancelled else Done)
                && |order| > 0 && order[0] == startNode.value
                && (status == Cancelled ==> order == [startNode.value])
                && (status == Done ==>
                      order == DfsOrder(nodes, startNode.value, {})
                      && NoDups(order) && forall v :: v in order <==> Reachable(nodes, startNode.value, v))
    {
      if startNode.None? {
        return [], Rejected(NO_START);
      }
      var start := startNode.value;
      ReachSelf(nodes, start);
      assert PathFrom(nodes, start, [] + [start]);
      var visited, stack, resumed;
      visited, order, stack, resumed := DfsVisit(start, {}, [], [], start);
      assert [] + DfsOrder(nodes, start, {}) == DfsOrder(nodes, start, {});
      if !resumed {
        return order, Cancelled;
      }
      assert order[..1] == [start];
      DfsDone(nodes, start, visited, order);
      return order, Done;
    }

    /** Visits `id`: marks and records it, pushes it, suspends, explores
        each neighbour still unvisited when its turn comes, then pops it.
        The stack with `id` pushed is always a path from the start to `id`.
        Everything newly visited is reachable from the start, and on
        return every neighbour of `id` is visited. */
    method DfsVisit(id: string, visited: set<string>, order: seq<string>, stack: seq<string>, ghost start: string)
      returns (visited': set<string>, order': seq<string>, stack': seq<string>, resumed: bool)
      requires Valid() && id in nodes && id !in visited && Reachable(nodes, start, id)
      requires DfsInv(nodes, start, visited, order, stack) && Elements(stack) <= visited
      requires PathFrom(nodes, start, stack + [id])
      ensures resumed == !base.cancelToken
      ensures !resumed ==> visited' == visited + {id} && order' == order + [id] && stack' == stack + [id]
      ensures resumed ==> stack' == stack && order + [id] <= order' && DfsInv(nodes, start, visited', order', stack)
      ensures resumed ==> visited + {id} <= visited'
      ensures resumed ==> order' == order + DfsOrder(nodes, id, visited)
                          && visited' == visited + Elements(DfsOrder(nodes, id, visited))
      decreases nodes.Keys - visited, 0
    {
      visited' := visited + {id};
      order' := order + [id];
      stack' := stack + [id];
      assert Elements(order') == Elements(order) + {id};
      NoDupsAppend(order, [id]);
      resumed := base.Sleep();
      if !resumed {
        return;
      }
      DfsOrderStep(nodes, id, visited);
      visited', order' := VisitNeighbours(id, visited', order', stack', start);
      AppendAssoc(order, [id], DfsList(nodes, nodes[id], visited + {id}));
      ElementsAppend(order, DfsOrder(nodes, id, visited));
      forall v, w | v in visited' && v !in stack && v in nodes && w in nodes[v]
        ensures w in visited'
      {
        if v != id {
          assert v !in stack';
        }
      }
      stack' := stack;
    }

    /** The neighbour loop of a visit to `id`: each neighbour still
        unvisited when its turn comes is visited in turn, so what is
        recorded is `DfsList` over the adjacency list, and afterwards every
        neighbour is visited. */
    method VisitNeighbours(id: string, visited: set<string>, order: seq<string>, stack: seq<string>, ghost start: string)
      returns (visited': set<string>, order': seq<string>)
      requires Valid() && id in nodes && id in visited && !base.cancelToken
      requires DfsInv(nodes, start, visited, order, stack) && Elements(stack) <= visited
      requires PathFrom(nodes, start, stack) && stack[|stack| - 1] == id
      ensures visited <= visited' && DfsInv(nodes, start, visited', order', stack)
      ensures forall w :: w in nodes[id] ==> w in visited'
      ensures order' == order + DfsList(nodes, nodes[id], visited)
      decreases nodes.Keys - visited, 1
    {
      var ns := nodes[id];
      visited', order' := visited, order;
      assert ns[0..] == ns;
      var k := 0;
      while k < |ns|
        invariant 0 <= k <= |ns| && visited <= visited'
        invariant DfsInv(nodes, start, visited', order', stack) && Elements(stack) <= visited'
        invariant forall j :: 0 <= j < k ==> ns[j] in visited'
        invariant order' + DfsList(nodes, ns[k..], visited') == order + DfsList(nodes, ns, visited)
      {
        var nb := ns[k];
        DfsListStep(nodes, ns, k, visited', order');
        if nb !in visited' {
          var ok := base.Sleep();
          ReachExtend(nodes, start, id, nb);
          PathExtend(nodes, start, stack, nb);
          var stack2;
          visited', order', stack2, ok := DfsVisit(nb, visited', order', stack, start);
        }
        k := k + 1;
      }
      forall w | w in ns
        ensures w in visited'
      {
        var j :| 0 <= j < |ns| && ns[j] == w;
      }
    }

    /** One node's box, labelled with its id, its tooltip naming it. */
    method AddNode(id: string) returns (mesh: Mesh)
      requires gfx.Valid()
      modifies gfx, gfx.resources
      ensures gfx.Valid() && fresh(mesh) && gfx.objects == old(gfx.objects) + [mesh]
      ensures mesh.hoverText == Some([Field("Node", Words(id))]) && mesh.material.color == PRIMARY
      ensures gfx.labels == old(gfx.labels) + (if gfx.labelsLayer then [Label(mesh, Words(id))] else [])
      ensures gfx.arrows == old(gfx.arrows)
    {
      mesh := NewMesh(gfx.resources, BOX, NODE_BOX, PRIMARY);
      mesh.hoverText := Some([Field("Node", Words(id))]);
      gfx.AddObj(mesh, Some(Words(id)), None);
    }

    /** The clicked node becomes the start node. */
    method SetStartNode(nodeId: string)
      requires Valid() && nodeId in nodes
      modifies this`startNode
      ensures Valid() && startNode == Some(nodeId)
    {
      startNode := Some(nodeId);
    }

    /** Breadth-first walk from the start node: the nodes in the order
        they are taken off the queue, which is `BfsOrder`. A node is marked when it is queued,
        so none is queued twice; the walk reaches exactly the nodes
        reachable from the start. Without a start node nothing is
        visited; a torn-down module stops after visiting the start. */
    method RunBfs() returns (order: seq<string>, status: Status)
      requires Valid()
      ensures startNode.None? ==> status == Rejected(NO_START) && order == []
      ensures startNode.Some? ==>
                status == (if base.cancelToken then Cancelled else Done)
                && |order| > 0 && order[0] == startNode.value
                && (status == Cancelled ==> order == [startNode.value])
                && (status == Done ==>
                      order == BfsOrder(nodes, [startNode.value], {startNode.value})
                      && NoDups(order) && forall v :: v in order <==> Reachable(nodes, startNode.value, v))
    {
      if startNode.None? {
        return [], Rejected(NO_START);
      }
      var start := startNode.value;
      ReachSelf(nodes, start);
      ghost var whole := BfsOrder(nodes, [start], {start});
      var queue := [start];
      var visited := {start};
      order := [];
      assert order + queue == [start];
      while |queue| > 0
        invariant BfsInv(nodes, start, order, queue, visited)
        invariant |order| == 0 ==> queue == [start]
        invariant |order| > 0 ==> order[0] == start && !base.cancelToken
        invariant order + BfsOrder(nodes, queue, visited) == whole
        decreases nodes.Keys - Elements(order)
      {
        var cur := queue[0];
        BfsAdvance(nodes, start, order, queue, visited);
        queue := queue[1..];
        order := order + [cur];
        var ok := base.Sleep();
        if !ok {
          return order, Cancelled;
        }
        visited, queue := Discover(cur, visited, queue);
      }
      assert order + [] == order;
      BfsDone(nodes, start, order, visited);
      return order, Done;
    }

    /** The neighbours of `cur` not yet marked are marked and queued, in
        adjacency order, each with a suspension. */
    method Discover(cur: string, visited: set<string>, queue: seq<string>)
      returns (visited': set<string>, queue': seq<string>)
      requires Valid() && cur in nodes && !base.cancelToken
      ensures visited' == visited + Elements(nodes[cur])
      ensures queue' == queue + Unseen(nodes[cur], visited)
    {
      var ns := nodes[cur];
      visited', queue' := visited, queue;
      var k := 0;
      while k < |ns|
        invariant 0 <= k <= |ns|
        invariant visited' == visited + Elements(ns[..k])
        invariant queue' + Unseen(ns[k..], visited') == queue + Unseen(ns, visited)
      {
        var nb := ns[k];
        assert ns[k..] == [nb] + ns[k + 1..];
        if nb !in visited' {
          visited' := visited' + {nb};
          queue' := queue' + [nb];
          var resumed := base.Sleep();
        }
        assert ns[..k + 1] == ns[..k] + [nb];
        k := k + 1;
      }
      assert ns[..k] == ns;
    }
  }
}
