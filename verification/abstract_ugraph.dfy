/** `AbstractUGraph`: the graph the searches, the component labelling and the cycle finder are instantiated with
    (their template parameter `G`), and the interface the current generator holds a pointer to. Only the two newer
    stores derive from the interface; the older `UndirectedGraph` is a third case here because the templates accept
    it too. The cases are a closed set, so the type is a sum that dispatches to each store; paths and reachability
    are defined once, over the neighbour lists each store hands out. */
module AbstractUGraph {
  import opened Seqs
  import opened EdgeList
  import ALUGraph
  import AMUGraph
  import UndirectedGraph

  datatype Graph =
    | List(al: ALUGraph.Graph)
    | Matrix(am: AMUGraph.Graph)
    | Legacy(ug: UndirectedGraph.Graph)

  /** The representation invariant of the store behind the interface. */
  predicate Valid(g: Graph)
  {
    match g
    case List(al) => ALUGraph.Inv(al)
    case Matrix(am) => AMUGraph.Inv(am)
    case Legacy(ug) => UndirectedGraph.Inv(ug)
  }

  /** `v()`: vertices are the ids `0 .. V(g) - 1`. */
  function V(g: Graph): nat
  {
    match g
    case List(al) => ALUGraph.V(al)
    case Matrix(am) => AMUGraph.V(am)
    case Legacy(ug) => UndirectedGraph.V(ug)
  }

  /** `e()` of the store. */
  function E(g: Graph): nat
    requires Valid(g)
  {
    match g
    case List(al) => ALUGraph.E(al)
    case Matrix(am) => AMUGraph.E(am)
    case Legacy(ug) => UndirectedGraph.E(ug)
  }

  /** `verticesAdjacentTo(v)` of the store. */
  function Neighbors(g: Graph, v: nat): seq<nat>
    requires v < V(g)
  {
    match g
    case List(al) => ALUGraph.Neighbors(al, v)
    case Matrix(am) => AMUGraph.Neighbors(am, v)
    case Legacy(ug) => UndirectedGraph.Neighbors(ug, v)
  }

  /** `addEdge(v, w)` of the store: afterwards `v` and `w` are neighbours of each other, and the edge count grew
      by at most one. */
  function AddEdge(g: Graph, v: nat, w: nat): (r: Graph)
    requires Valid(g)
    requires v < V(g) && w < V(g)
    ensures Valid(r) && V(r) == V(g)
    ensures w in Neighbors(r, v) && v in Neighbors(r, w)
    ensures E(g) <= E(r) <= E(g) + 1
  {
    match g
    case List(al) =>
      var r := ALUGraph.AddEdge(al, v, w);
      ALUGraph.AddEdgeNeighbors(al, v, w, v, w);
      ALUGraph.AddEdgeNeighbors(al, v, w, w, v);
      List(r)
    case Matrix(am) =>
      var r := AMUGraph.AddEdge(am, v, w);
      AMUGraph.AddEdgeCount(am, v, w);
      AMUGraph.NeighborsSpec(r, v);
      AMUGraph.NeighborsSpec(r, w);
      Matrix(r)
    case Legacy(ug) =>
      var r := UndirectedGraph.AddEdge(ug, v, w);
      UndirectedGraph.AddEdgeNeighbors(ug, v, w, v, w);
      UndirectedGraph.AddEdgeNeighbors(ug, v, w, w, v);
      Legacy(r)
  }

  /** `read_edges`: one `addEdge` per pair, in input order. */
  function ReadEdges(g: Graph, P: seq<Edge>): (r: Graph)
    requires Valid(g)
    requires PairsInRange(P, V(g))
    ensures Valid(r) && V(r) == V(g)
    decreases |P|
  {
    if P == [] then g
    else
      assert forall k :: 0 <= k < |P| - 1 ==> P[1..][k] == P[k + 1];
      ReadEdges(AddEdge(g, P[0].v, P[0].w), P[1..])
  }

  /** Reading a non-empty sequence is adding its first pair and then reading the rest. */
  lemma ReadEdgesCons(g: Graph, P: seq<Edge>)
    requires Valid(g) && PairsInRange(P, V(g)) && P != []
    ensures P[0].v < V(g) && P[0].w < V(g) && PairsInRange(P[1..], V(g))
    ensures ReadEdges(g, P) == ReadEdges(AddEdge(g, P[0].v, P[0].w), P[1..])
  {
    assert forall k :: 0 <= k < |P| - 1 ==> P[1..][k] == P[k + 1];
  }

  /** `read_edges` through the interface is the list store's own `read_edges`. */
  lemma {:induction false} ListReadEdges(al: ALUGraph.Graph, P: seq<Edge>)
    requires ALUGraph.Inv(al) && PairsInRange(P, ALUGraph.V(al))
    ensures ReadEdges(List(al), P) == List(ALUGraph.ReadEdges(al, P))
    decreases |P|
  {
    if P != [] {
      ReadEdgesCons(List(al), P);
      ListReadEdges(ALUGraph.AddEdge(al, P[0].v, P[0].w), P[1..]);
    }
  }

  /** `read_edges` through the interface is the matrix store's own `read_edges`. */
  lemma {:induction false} MatrixReadEdges(am: AMUGraph.Graph, P: seq<Edge>)
    requires AMUGraph.Inv(am) && PairsInRange(P, AMUGraph.V(am))
    ensures ReadEdges(Matrix(am), P) == Matrix(AMUGraph.ReadEdges(am, P))
    decreases |P|
  {
    if P != [] {
      ReadEdgesCons(Matrix(am), P);
      MatrixReadEdges(AMUGraph.AddEdge(am, P[0].v, P[0].w), P[1..]);
    }
  }

  /** `read_edges` through the interface is the older store's own `read_edges`. */
  lemma {:induction false} LegacyReadEdges(ug: UndirectedGraph.Graph, P: seq<Edge>)
    requires UndirectedGraph.Inv(ug) && PairsInRange(P, UndirectedGraph.V(ug))
    ensures ReadEdges(Legacy(ug), P) == Legacy(UndirectedGraph.ReadEdges(ug, P))
    decreases |P|
  {
    if P != [] {
      ReadEdgesCons(Legacy(ug), P);
      LegacyReadEdges(UndirectedGraph.AddEdge(ug, P[0].v, P[0].w), P[1..]);
    }
  }

  // ----- the graph the interface shows -----

  /** Neighbours are vertices. */
  predicate Closed(g: Graph)
  {
    forall v, w :: 0 <= v < V(g) && w in Neighbors(g, v) ==> w < V(g)
  }

  /** For distinct vertices, `w` is listed among the neighbours of `v` as often as `v` among those of `w`. */
  predicate CountSymmetric(g: Graph)
  {
    forall v, w :: 0 <= v < V(g) && 0 <= w < V(g) && v != w ==> Count(Neighbors(g, v), w) == Count(Neighbors(g, w), v)
  }

  /** Every store the operations build shows a closed, symmetric neighbour relation. */
  lemma ValidShape(g: Graph)
    requires Valid(g)
    ensures Closed(g) && CountSymmetric(g)
  {
    forall v, w | 0 <= v < V(g) && 0 <= w < V(g) && v != w
      ensures Count(Neighbors(g, v), w) == Count(Neighbors(g, w), v)
    {
      NeighborPair(g, v, w);
    }
    forall v, w | 0 <= v < V(g) && w in Neighbors(g, v)
      ensures w < V(g)
    {
      NeighborPair(g, v, w);
    }
  }

  lemma NeighborPair(g: Graph, v: nat, w: nat)
    requires Valid(g)
    requires v < V(g)
    ensures w in Neighbors(g, v) ==> w < V(g)
    ensures w < V(g) && v != w ==> Count(Neighbors(g, v), w) == Count(Neighbors(g, w), v)
  {
    match g
    case List(al) =>
      ALUGraph.NeighborsInv(al, v, w);
    case Matrix(am) =>
      AMUGraph.NeighborsSpec(am, v);
      if w < V(g) {
        AMUGraph.NeighborsSpec(am, w);
        MatrixCount(am, v, w);
        MatrixCount(am, w, v);
      }
    case Legacy(ug) =>
      if w in Neighbors(g, v) {
        var k :| 0 <= k < |ug.adj[v]| && ug.adj[v][k] == w;
      }
  }

  /** A matrix row lists a joined vertex once and any other vertex not at all. */
  lemma MatrixCount(am: AMUGraph.Graph, v: nat, w: nat)
    requires AMUGraph.Square(am)
    requires v < AMUGraph.V(am) && w < AMUGraph.V(am)
    ensures Count(AMUGraph.Neighbors(am, v), w) == if am.m[v][w] then 1 else 0
  {
    AMUGraph.NeighborsSpec(am, v);
    if am.m[v][w] {
      NoDupCounts(AMUGraph.Neighbors(am, v));
    }
  }

  // ----- paths and reachability -----

  /** `p` is a walk: its entries are vertices and each entry after the first is a neighbour of the one before. */
  ghost predicate IsPath(g: Graph, p: seq<nat>)
  {
    && |p| >= 1
    && (forall i :: 0 <= i < |p| ==> p[i] < V(g))
    && (forall i :: 0 <= i < |p| - 1 ==> p[i + 1] in Neighbors(g, p[i]))
  }

  /** Some walk leads from `s` to `t`. */
  ghost predicate Reachable(g: Graph, s: nat, t: nat)
  {
    exists p :: IsPath(g, p) && p[0] == s && p[|p| - 1] == t
  }

  /** Every vertex reaches itself. */
  lemma ReachableSelf(g: Graph, s: nat)
    requires s < V(g)
    ensures Reachable(g, s, s)
  {
    assert IsPath(g, [s]);
  }

  /** A neighbour of a vertex reachable from `s` is reachable from `s`. */
  lemma ReachableStep(g: Graph, s: nat, u: nat, w: nat)
    requires Reachable(g, s, u)
    requires u < V(g) && w < V(g) && w in Neighbors(g, u)
    ensures Reachable(g, s, w)
  {
    var p :| IsPath(g, p) && p[0] == s && p[|p| - 1] == u;
    var q := p + [w];
    assert forall i :: 0 <= i < |p| ==> q[i] == p[i];
    assert IsPath(g, q);
  }

  /** Reachability is transitive. */
  lemma ReachableTrans(g: Graph, s: nat, u: nat, t: nat)
    requires Reachable(g, s, u) && Reachable(g, u, t)
    ensures Reachable(g, s, t)
  {
    var p :| IsPath(g, p) && p[0] == s && p[|p| - 1] == u;
    var q :| IsPath(g, q) && q[0] == u && q[|q| - 1] == t;
    var r := p + q[1..];
    forall i | 0 <= i < |r| - 1
      ensures r[i + 1] in Neighbors(g, r[i])
    {
      if i < |p| - 1 {
        assert r[i] == p[i] && r[i + 1] == p[i + 1];
      } else {
        assert r[i] == q[i - |p| + 1] && r[i + 1] == q[i - |p| + 2];
      }
    }
    assert IsPath(g, r);
  }

  /** In a store the operations build, walks can be reversed: reachability is symmetric. */
  lemma ReachableSymmetric(g: Graph, s: nat, t: nat)
    requires Valid(g)
    requires Reachable(g, s, t)
    ensures Reachable(g, t, s)
  {
    var p :| IsPath(g, p) && p[0] == s && p[|p| - 1] == t;
    var r := ReversePath(g, p);
    assert IsPath(g, r) && r[0] == t && r[|r| - 1] == s;
  }

  /** A walk read backwards is a walk between the same ends, swapped. */
  lemma ReversePath(g: Graph, p: seq<nat>) returns (r: seq<nat>)
    requires Valid(g) && IsPath(g, p)
    ensures IsPath(g, r) && r[0] == p[|p| - 1] && r[|r| - 1] == p[0]
  {
    r := seq(|p|, i requires 0 <= i < |p| => p[|p| - 1 - i]);
    forall i | 0 <= i < |r| - 1
      ensures r[i + 1] in Neighbors(g, r[i])
    {
      var a, b := p[|p| - 2 - i], p[|p| - 1 - i];
      assert r[i] == b && r[i + 1] == a;
      NeighborBack(g, a, b);
    }
  }

  /** In a store the operations build, a vertex is a neighbour of each of its neighbours. */
  lemma NeighborBack(g: Graph, a: nat, b: nat)
    requires Valid(g)
    requires a < V(g) && b in Neighbors(g, a)
    ensures b < V(g) && a in Neighbors(g, b)
  {
    NeighborPair(g, a, b);
    if a != b {
      assert Count(Neighbors(g, a), b) > 0;
      NeighborPair(g, b, a);
      assert Count(Neighbors(g, b), a) > 0;
    }
  }

  /** Marks over the vertices such that every neighbour of a marked vertex is marked. */
  predicate ClosedMarks(g: Graph, marks: seq<bool>)
  {
    && |marks| == V(g)
    && forall v, w :: 0 <= v < V(g) && marks[v] && w in Neighbors(g, v) ==> w < V(g) && marks[w]
  }

  /** A closed mark set that holds `s` holds every vertex reachable from `s`. */
  lemma ClosedMarksReach(g: Graph, marks: seq<bool>, s: nat, t: nat)
    requires ClosedMarks(g, marks)
    requires s < V(g) && marks[s]
    requires Reachable(g, s, t)
    ensures t < V(g) && marks[t]
  {
    var p :| IsPath(g, p) && p[0] == s && p[|p| - 1] == t;
    var i := 0;
    while i < |p| - 1
      invariant 0 <= i <= |p| - 1
      invariant marks[p[i]]
    {
      i := i + 1;
    }
  }
}
