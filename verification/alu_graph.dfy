/** `ALUGraph`: the undirected graph stored as one adjacency list per vertex. Its neighbour view collapses the two
    stored copies of a self-loop into one, and `toInputString` writes the graph back in the edge-list format. */
module ALUGraph {
  import opened Seqs
  import opened EdgeList
  import AdjacencyLists

  datatype Graph = Graph(adj: AdjacencyLists.Lists)

  /** Every graph the constructors and `addEdge` build satisfies this. */
  predicate Inv(g: Graph)
  {
    AdjacencyLists.Inv(g.adj)
  }

  /** Number of vertices. */
  function V(g: Graph): nat
  {
    |g.adj|
  }

  /** Number of edges: half the total length of the lists. */
  function E(g: Graph): nat
  {
    AdjacencyLists.EdgeCount(g.adj)
  }

  /** The size constructor: `size` vertices and no edge. */
  function New(size: nat): (g: Graph)
    ensures V(g) == size && E(g) == 0 && Inv(g)
    ensures forall v, w :: 0 <= v < size ==> Count(Neighbors(g, v), w) == 0
  {
    Graph(AdjacencyLists.Empty(size))
  }

  /** `verticesAdjacentTo(v)`: the stored list of `v` with every second copy of `v` dropped. */
  function Neighbors(g: Graph, v: nat): seq<nat>
    requires v < V(g)
  {
    CollapseSelfLoops(g.adj[v], v, false)
  }

  /** `addEdge(v, w)`; the same edge may be added more than once. */
  function AddEdge(g: Graph, v: nat, w: nat): (r: Graph)
    requires v < V(g) && w < V(g)
    ensures V(r) == V(g) && E(r) == E(g) + 1
    ensures Inv(g) ==> Inv(r)
  {
    var r := Graph(AdjacencyLists.Link(g.adj, v, w));
    AdjacencyLists.LinkTotal(g.adj, v, w);
    assert Inv(g) ==> Inv(r) by {
      if Inv(g) {
        AdjacencyLists.LinkInv(g.adj, v, w);
      }
    }
    r
  }

  /** `read_edges`: one `addEdge` per pair, in input order. */
  function ReadEdges(g: Graph, P: seq<Edge>): (r: Graph)
    requires PairsInRange(P, V(g))
    ensures V(r) == V(g) && E(r) == E(g) + |P|
    ensures Inv(g) ==> Inv(r)
  {
    AdjacencyLists.ReadEdgesTotal(g.adj, P);
    Graph(AdjacencyLists.ReadEdges(g.adj, P))
  }

  /** The stream constructor on well-formed input: as many vertices and edges as the header says. */
  function FromInput(t: seq<nat>): (g: Graph)
    requires WellFormedInput(t)
    ensures V(g) == t[0] && E(g) == t[1] && Inv(g)
  {
    ReadEdges(New(t[0]), InputPairs(t))
  }

  /** The neighbour views of all vertices, in vertex order: the rows `toString` prints. */
  function Rows(g: Graph): (r: seq<seq<nat>>)
    ensures |r| == V(g)
    ensures forall v :: 0 <= v < V(g) ==> Without(r[v], v) == Without(g.adj[v], v)
    ensures forall v :: 0 <= v < V(g) ==> Count(r[v], v) == Count(g.adj[v], v) / 2
  {
    var r := seq(V(g), v requires 0 <= v < V(g) => Neighbors(g, v));
    assert forall v :: 0 <= v < V(g) ==> Without(r[v], v) == Without(g.adj[v], v) && Count(r[v], v) == Count(g.adj[v], v) / 2 by {
      forall v | 0 <= v < V(g)
        ensures Without(r[v], v) == Without(g.adj[v], v) && Count(r[v], v) == Count(g.adj[v], v) / 2
      {
        CollapseSelfLoopsKeepsOthers(g.adj[v], v, false);
        CollapseSelfLoopsHalves(g.adj[v], v, false);
      }
    }
    r
  }

  /** `toInputString` as written: the vertex count, the edge count, then the pairs of every row. */
  function InputString(g: Graph): seq<nat>
  {
    InputText(V(g), E(g), Serialize(Rows(g), 0, false))
  }

  /** `toInputString` with the self-loop toggle removed: every neighbour at or above the row's vertex is written. */
  function InputStringFixed(g: Graph): seq<nat>
  {
    InputText(V(g), E(g), Serialize(Rows(g), 0, true))
  }

  /** Some vertex has a self-loop. */
  predicate HasSelfLoop(g: Graph)
  {
    exists v :: 0 <= v < V(g) && v in g.adj[v]
  }

  /** `h` and `g` have the same vertices and the same neighbours of every vertex, up to order. */
  predicate SameGraph(h: Graph, g: Graph)
  {
    V(h) == V(g) && forall v :: 0 <= v < V(g) ==> multiset(h.adj[v]) == multiset(g.adj[v])
  }

  // ----- lemmas -----

  /** The neighbour view lists every stored neighbour other than `v` as often as it is stored, and `v` itself once
      per self-loop; it is the stored list with entries removed. */
  lemma NeighborsSpec(g: Graph, v: nat)
    requires v < V(g)
    ensures IsSubsequence(Neighbors(g, v), g.adj[v])
    ensures forall y :: y != v ==> Count(Neighbors(g, v), y) == Count(g.adj[v], y)
    ensures Count(Neighbors(g, v), v) == Count(g.adj[v], v) / 2
  {
    CollapseSelfLoopsSubsequence(g.adj[v], v, false);
    CollapseSelfLoopsCounts(g.adj[v], v, false);
    CollapseSelfLoopsHalves(g.adj[v], v, false);
  }

  /** In a graph the operations build, neighbours are vertices, `w` is a neighbour of `v` as often as `v` is one of
      `w`, and `v` is its own neighbour exactly when it has a self-loop. */
  lemma NeighborsInv(g: Graph, v: nat, w: nat)
    requires Inv(g)
    requires v < V(g)
    ensures w in Neighbors(g, v) ==> w < V(g)
    ensures w < V(g) ==> Count(Neighbors(g, v), w) == Count(Neighbors(g, w), v)
    ensures v in Neighbors(g, v) <==> v in g.adj[v]
  {
    NeighborsSpec(g, v);
    if w in Neighbors(g, v) && w != v {
      assert Count(g.adj[v], w) > 0;
      var k :| 0 <= k < |g.adj[v]| && g.adj[v][k] == w;
    }
    if w < V(g) {
      NeighborsSpec(g, w);
    }
    assert Count(g.adj[v], v) % 2 == 0;
  }

  /** `addEdge(v, w)` adds one `w` to the neighbours of `v` and one `v` to those of `w` (a single `v` for a
      self-loop), and changes no other neighbour count. */
  lemma AddEdgeNeighbors(g: Graph, v: nat, w: nat, x: nat, y: nat)
    requires v < V(g) && w < V(g) && x < V(g)
    ensures Count(Neighbors(AddEdge(g, v, w), x), y) ==
            Count(Neighbors(g, x), y) + (if (x == v && y == w) || (x == w && y == v) then 1 else 0)
  {
    var r := AddEdge(g, v, w);
    AdjacencyLists.LinkCount(g.adj, v, w, x, y);
    NeighborsSpec(g, x);
    NeighborsSpec(r, x);
  }

  /** The graph read from text lists `y` among the neighbours of `x` once per input pair joining the two, in either
      orientation; a self-loop pair gives its vertex once. */
  lemma FromInputNeighbors(t: seq<nat>, x: nat, y: nat)
    requires WellFormedInput(t)
    requires x < t[0]
    ensures Count(Neighbors(FromInput(t), x), y) ==
            if x == y then PairCount(InputPairs(t), x, x)
            else PairCount(InputPairs(t), x, y) + PairCount(InputPairs(t), y, x)
  {
    var g := FromInput(t);
    var P := InputPairs(t);
    AdjacencyLists.ReadEdgesLists(New(t[0]).adj, P, x);
    AdjacencyLists.ContributionsCount(P, x, y);
    NeighborsSpec(g, x);
  }

  /** Reading pairs from an empty graph stores, for `x`, one `y` per pair `x y` and one per pair `y x`. */
  lemma ReadBackCounts(n: nat, P: seq<Edge>, x: nat, y: nat)
    requires PairsInRange(P, n)
    requires x < n
    ensures Count(ReadEdges(New(n), P).adj[x], y) == PairCount(P, x, y) + PairCount(P, y, x)
  {
    AdjacencyLists.ReadEdgesLists(New(n).adj, P, x);
    AdjacencyLists.ContributionsCount(P, x, y);
  }

  /** Every pair written by either emission names vertices of the graph. */
  lemma SerializedInRange(g: Graph, fixed: bool)
    requires Inv(g)
    ensures PairsInRange(Serialize(Rows(g), 0, fixed), V(g))
  {
    var P := Serialize(Rows(g), 0, fixed);
    forall k | 0 <= k < |P|
      ensures P[k].v < V(g) && P[k].w < V(g)
    {
      var a, b := P[k].v, P[k].w;
      assert P[k] in multiset(P);
      SerializeCount(Rows(g), 0, fixed, a, b);
      assert a < V(g);
      var ts := Targets(Rows(g)[a], a, fixed);
      if !fixed {
        WrittenTargetsCount(Rows(g)[a], a, false, b);
      }
      assert Count(Neighbors(g, a), b) > 0;
      NeighborsInv(g, a, b);
    }
  }

  /** The fixed emission writes each pair `a b` with `a <= b` once per occurrence of `b` among the neighbours of
      `a`, and no other pair. */
  lemma FixedPairCount(g: Graph, a: nat, b: nat)
    ensures PairCount(Serialize(Rows(g), 0, true), a, b) ==
            if a < V(g) && a <= b then Count(Neighbors(g, a), b) else 0
  {
    SerializeCount(Rows(g), 0, true, a, b);
  }

  /** Reading the fixed emission back stores every neighbour exactly as often as the graph does. */
  lemma FixedStoreCount(g: Graph, x: nat, y: nat)
    requires Inv(g)
    requires x < V(g)
    ensures PairCount(Serialize(Rows(g), 0, true), x, y) + PairCount(Serialize(Rows(g), 0, true), y, x) ==
            Count(g.adj[x], y)
  {
    FixedPairCount(g, x, y);
    FixedPairCount(g, y, x);
    NeighborsSpec(g, x);
    if y < x {
      NeighborsSpec(g, y);
    } else if y == x {
      assert Count(g.adj[x], x) % 2 == 0;
    }
  }

  /** The fixed `toInputString` always reads back: the stream constructor rebuilds the same vertices with the same
      neighbours, up to their order in each list. */
  lemma InputStringFixedRoundTrip(g: Graph)
    requires Inv(g)
    ensures WellFormedInput(InputStringFixed(g))
    ensures SameGraph(FromInput(InputStringFixed(g)), g)
    ensures E(FromInput(InputStringFixed(g))) == E(g)
    ensures |Serialize(Rows(g), 0, true)| == E(g)
  {
    var P := Serialize(Rows(g), 0, true);
    FixedReadBack(g);
    var h := ReadEdges(New(V(g)), P);
    AdjacencyLists.SameContentsSameTotal(h.adj, g.adj);
    assert |P| == E(g);
    InputTextReadBack(V(g), E(g), P);
  }

  /** Reading the pairs of the fixed emission into an empty graph rebuilds the neighbour lists up to order. */
  lemma FixedReadBack(g: Graph)
    requires Inv(g)
    ensures PairsInRange(Serialize(Rows(g), 0, true), V(g))
    ensures SameGraph(ReadEdges(New(V(g)), Serialize(Rows(g), 0, true)), g)
  {
    var P := Serialize(Rows(g), 0, true);
    SerializedInRange(g, true);
    var h := ReadEdges(New(V(g)), P);
    forall x: nat, y: nat | x < V(g)
      ensures Count(h.adj[x], y) == Count(g.adj[x], y)
    {
      FixedReadBackCount(g, x, y);
    }
    SameGraphFromCounts(h, g);
  }

  /** Graphs over the same vertices whose lists hold every id equally often are the same graph. */
  lemma SameGraphFromCounts(h: Graph, g: Graph)
    requires V(h) == V(g)
    requires forall x: nat, y: nat :: x < V(g) ==> Count(h.adj[x], y) == Count(g.adj[x], y)
    ensures SameGraph(h, g)
  {
    forall x | 0 <= x < V(g)
      ensures multiset(h.adj[x]) == multiset(g.adj[x])
    {
      forall y: nat
        ensures multiset(h.adj[x])[y] == multiset(g.adj[x])[y]
      {
        assert Count(h.adj[x], y) == Count(g.adj[x], y);
      }
    }
  }

  lemma FixedReadBackCount(g: Graph, x: nat, y: nat)
    requires Inv(g)
    requires x < V(g)
    requires PairsInRange(Serialize(Rows(g), 0, true), V(g))
    ensures Count(ReadEdges(New(V(g)), Serialize(Rows(g), 0, true)).adj[x], y) == Count(g.adj[x], y)
  {
    ReadBackCounts(V(g), Serialize(Rows(g), 0, true), x, y);
    FixedStoreCount(g, x, y);
  }

  /** A self-loop in the store shows up as a self-loop in its vertex's row, and conversely. */
  lemma RowLoops(g: Graph)
    requires Inv(g)
    ensures HasSelfLoop(g) <==> exists a :: 0 <= a < |Rows(g)| && a in Rows(g)[a]
  {
    var rows := Rows(g);
    if HasSelfLoop(g) {
      var v :| 0 <= v < V(g) && v in g.adj[v];
      NeighborsInv(g, v, v);
      assert v in rows[v];
    } else {
      forall a | 0 <= a < |rows|
        ensures a !in rows[a]
      {
        NeighborsInv(g, a, a);
      }
    }
  }

  /** `toInputString` as written reads back exactly when the graph has no self-loop, and then it is the fixed
      emission; a self-loop loses its pair while the header still counts it. */
  lemma InputStringRoundTrip(g: Graph)
    requires Inv(g)
    ensures WellFormedInput(InputString(g)) <==> !HasSelfLoop(g)
    ensures !HasSelfLoop(g) ==> InputString(g) == InputStringFixed(g)
  {
    var rows := Rows(g);
    var written := Serialize(rows, 0, false);
    SerializeWrittenVsFixed(rows, 0);
    RowLoops(g);
    InputStringFixedRoundTrip(g);
    if HasSelfLoop(g) {
      WrittenPairsFewer(g);
      SerializedInRange(g, false);
      InputTextReadBack(V(g), E(g), written);
    }
  }

  /** With a self-loop, the written pairs are fewer than the edges the header announces. */
  lemma WrittenPairsFewer(g: Graph)
    requires Inv(g)
    requires exists a :: 0 <= a < |Rows(g)| && a in Rows(g)[a]
    ensures |Serialize(Rows(g), 0, false)| < E(g)
  {
    SerializeWrittenVsFixed(Rows(g), 0);
    InputStringFixedRoundTrip(g);
  }

  /** Both emissions write every pair with its smaller vertex first, in ascending order of that vertex. */
  lemma InputStringOrder(g: Graph, fixed: bool)
    ensures forall k :: 0 <= k < |Serialize(Rows(g), 0, fixed)| ==>
      Serialize(Rows(g), 0, fixed)[k].v <= Serialize(Rows(g), 0, fixed)[k].w
    ensures forall k, l :: 0 <= k < l < |Serialize(Rows(g), 0, fixed)| ==>
      Serialize(Rows(g), 0, fixed)[k].v <= Serialize(Rows(g), 0, fixed)[l].v
  {
    SerializeOrder(Rows(g), 0, fixed);
  }

  /** A single vertex with a self-loop: `toInputString` announces one edge and writes no pair, so its text cannot
      be read back, while the fixed emission writes the pair `0 0`. */
  lemma SelfLoopDropped()
    ensures InputString(AddEdge(New(1), 0, 0)) == [1, 1]
    ensures !WellFormedInput(InputString(AddEdge(New(1), 0, 0)))
    ensures InputStringFixed(AddEdge(New(1), 0, 0)) == [1, 1, 0, 0]
  {
    LoopWritten();
    LoopFixed();
  }

  /** As written, the row of the looped vertex writes nothing. */
  lemma LoopWritten()
    ensures Serialize(Rows(AddEdge(New(1), 0, 0)), 0, false) == []
  {
    LoopRows();
    assert WrittenTargets([0], 0, false) == [];
    assert Serialize([[0]], 1, false) == [];
  }

  /** With the fixed emission, the row of the looped vertex writes the loop once. */
  lemma LoopFixed()
    ensures Serialize(Rows(AddEdge(New(1), 0, 0)), 0, true) == [Edge(0, 0)]
  {
    LoopRows();
    assert AtLeast([0], 0) == [0];
    assert Serialize([[0]], 1, true) == [];
  }

  /** The one-vertex graph with a self-loop stores the loop twice and shows it once. */
  lemma LoopRows()
    ensures AddEdge(New(1), 0, 0).adj == [[0, 0]]
    ensures Rows(AddEdge(New(1), 0, 0)) == [[0]]
  {
    var g := AddEdge(New(1), 0, 0);
    assert g.adj[0] == [0, 0];
    assert CollapseSelfLoops([0], 0, true) == [0];
    assert Neighbors(g, 0) == [0];
  }
}
