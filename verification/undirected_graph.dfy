/** `UndirectedGraph`: the earlier adjacency-list graph. Its storage and `addEdge` are those of `ALUGraph`, but
    `verticesAdjacentTo` hands out the stored list itself, so a self-loop shows up twice among its vertex's
    neighbours. It has no `toInputString`. */
module UndirectedGraph {
  import opened Seqs
  import opened EdgeList
  import AdjacencyLists
  import ALUGraph

  datatype Graph = Graph(adj: AdjacencyLists.Lists)

  /** Every graph the constructors and `addEdge` build satisfies this. */
  predicate Inv(g: Graph)
  {
    AdjacencyLists.Inv(g.adj)
  }

  /** Number of vertices. */
  function V(g: Graph): nat
  {
    |g.adj|
  }

  /** Number of edges: half the total length of the lists. */
  function E(g: Graph): nat
  {
    AdjacencyLists.EdgeCount(g.adj)
  }

  /** The size constructor: `size` vertices and no edge. */
  function New(size: nat): (g: Graph)
    ensures V(g) == size && E(g) == 0 && Inv(g)
    ensures forall v :: 0 <= v < size ==> Neighbors(g, v) == []
  {
    Graph(AdjacencyLists.Empty(size))
  }

  /** `verticesAdjacentTo(v)`: the stored list, a self-loop included twice. */
  function Neighbors(g: Graph, v: nat): seq<nat>
    requires v < V(g)
  {
    g.adj[v]
  }

  /** `addEdge(v, w)`; the same edge may be added more than once. The neighbours of `v` gain `w` at the end, those
      of `w` gain `v`, and nothing else changes. */
  function AddEdge(g: Graph, v: nat, w: nat): (r: Graph)
    requires v < V(g) && w < V(g)
    ensures V(r) == V(g) && E(r) == E(g) + 1
    ensures forall x :: 0 <= x < V(g) ==> Neighbors(r, x) == Neighbors(g, x) + AdjacencyLists.Delta(v, w, x)
    ensures Inv(g) ==> Inv(r)
  {
    var r := Graph(AdjacencyLists.Link(g.adj, v, w));
    AdjacencyLists.LinkTotal(g.adj, v, w);
    forall x | 0 <= x < V(g)
      ensures Neighbors(r, x) == Neighbors(g, x) + AdjacencyLists.Delta(v, w, x)
    {
      AdjacencyLists.LinkDelta(g.adj, v, w, x);
    }
    assert Inv(g) ==> Inv(r) by {
      if Inv(g) {
        AdjacencyLists.LinkInv(g.adj, v, w);
      }
    }
    r
  }

  /** One `addEdge` per pair, in input order: the neighbours of each vertex are the old ones followed by the ids
      the pairs append, in input order. */
  function ReadEdges(g: Graph, P: seq<Edge>): (r: Graph)
    requires PairsInRange(P, V(g))
    ensures V(r) == V(g) && E(r) == E(g) + |P|
    ensures forall x :: 0 <= x < V(g) ==> Neighbors(r, x) == Neighbors(g, x) + AdjacencyLists.Contributions(P, x)
    ensures Inv(g) ==> Inv(r)
  {
    AdjacencyLists.ReadEdgesTotal(g.adj, P);
    forall x | 0 <= x < V(g)
      ensures AdjacencyLists.ReadEdges(g.adj, P)[x] == g.adj[x] + AdjacencyLists.Contributions(P, x)
    {
      AdjacencyLists.ReadEdgesLists(g.adj, P, x);
    }
    Graph(AdjacencyLists.ReadEdges(g.adj, P))
  }

  /** The stream constructor on well-formed input: as many vertices and edges as the header says, and each
      vertex's neighbours are the ids the input pairs append to it, in input order. */
  function FromInput(t: seq<nat>): (g: Graph)
    requires WellFormedInput(t)
    ensures V(g) == t[0] && E(g) == t[1] && Inv(g)
    ensures forall x :: 0 <= x < t[0] ==> Neighbors(g, x) == AdjacencyLists.Contributions(InputPairs(t), x)
  {
    var g := ReadEdges(New(t[0]), InputPairs(t));
    assert forall x :: 0 <= x < t[0] ==> New(t[0]).adj[x] == [];
    g
  }

  /** The neighbour lists of all vertices, in vertex order: the rows `toString` prints. A row lists every stored
      entry, so it shows each neighbour as often as the collapsing view of `ALUGraph` over the same lists does, and
      a self-loop twice as often. */
  function Rows(g: Graph): (r: seq<seq<nat>>)
    ensures |r| == V(g)
    ensures forall v :: 0 <= v < V(g) ==> r[v] == Neighbors(g, v)
    ensures Inv(g) ==> forall v, w :: 0 <= v < V(g) ==>
              Count(r[v], w) == (if v == w then 2 else 1) * Count(ALUGraph.Rows(ALUGraph.Graph(g.adj))[v], w)
  {
    assert Inv(g) ==> forall v, w :: 0 <= v < V(g) ==>
             Count(g.adj[v], w) == (if v == w then 2 else 1) * Count(ALUGraph.Rows(ALUGraph.Graph(g.adj))[v], w) by {
      if Inv(g) {
        forall v, w | 0 <= v < V(g)
          ensures Count(g.adj[v], w) == (if v == w then 2 else 1) * Count(ALUGraph.Rows(ALUGraph.Graph(g.adj))[v], w)
        {
          NeighborsVersusView(g, v, w);
        }
      }
    }
    g.adj
  }

  /** Sum of the lengths of the neighbour lists of the vertices below `n`. */
  function DegreeSum(g: Graph, n: nat): nat
    requires n <= V(g)
  {
    if n == 0 then 0 else DegreeSum(g, n - 1) + |Neighbors(g, n - 1)|
  }

  // ----- lemmas -----

  /** `addEdge(v, w)` adds `w` to the neighbours of `v` and `v` to those of `w`, so a self-loop adds two copies of
      its vertex; no other neighbour count changes. */
  lemma AddEdgeNeighbors(g: Graph, v: nat, w: nat, x: nat, y: nat)
    requires v < V(g) && w < V(g) && x < V(g)
    ensures Count(Neighbors(AddEdge(g, v, w), x), y) ==
            Count(Neighbors(g, x), y) + (if x == v && y == w then 1 else 0) + (if x == w && y == v then 1 else 0)
  {
    AdjacencyLists.LinkCount(g.adj, v, w, x, y);
  }

  /** The graph read from text lists `y` among the neighbours of `x` once per input pair `x y` and once per pair
      `y x`; a self-loop pair therefore gives its vertex twice. */
  lemma FromInputNeighbors(t: seq<nat>, x: nat, y: nat)
    requires WellFormedInput(t)
    requires x < t[0]
    ensures Count(Neighbors(FromInput(t), x), y) == PairCount(InputPairs(t), x, y) + PairCount(InputPairs(t), y, x)
  {
    AdjacencyLists.ReadEdgesLists(New(t[0]).adj, InputPairs(t), x);
    AdjacencyLists.ContributionsCount(InputPairs(t), x, y);
  }

  /** The degrees add up to the total length of the lists. */
  lemma {:induction false} DegreeSumTotal(g: Graph, n: nat)
    requires n <= V(g)
    ensures DegreeSum(g, n) + AdjacencyLists.TotalLength(g.adj[n..]) == AdjacencyLists.TotalLength(g.adj)
  {
    if n > 0 {
      DegreeSumTotal(g, n - 1);
      assert g.adj[n - 1..][1..] == g.adj[n..];
    } else {
      assert g.adj[0..] == g.adj;
    }
  }

  /** The handshake property of a graph read from text: the degrees, self-loops counted twice, add up to twice the
      number of edges. */
  lemma FromInputHandshake(t: seq<nat>)
    requires WellFormedInput(t)
    ensures DegreeSum(FromInput(t), t[0]) == 2 * E(FromInput(t))
  {
    var g := FromInput(t);
    DegreeSumTotal(g, t[0]);
    assert g.adj[t[0]..] == [];
    AdjacencyLists.ReadEdgesTotal(New(t[0]).adj, InputPairs(t));
  }

  /** Every neighbour `w` of `v` in this graph is one in the `ALUGraph` view of the same store, as often, except
      that the view lists a self-loop once where this graph lists it twice. */
  lemma NeighborsVersusView(g: Graph, v: nat, w: nat)
    requires Inv(g)
    requires v < V(g)
    ensures Count(Neighbors(g, v), w) ==
            (if v == w then 2 else 1) * Count(CollapseSelfLoops(g.adj[v], v, false), w)
  {
    CollapseSelfLoopsCounts(g.adj[v], v, false);
    CollapseSelfLoopsHalves(g.adj[v], v, false);
    assert Count(g.adj[v], v) % 2 == 0;
  }
}
