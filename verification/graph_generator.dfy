/** `GraphGenerator`: adds randomly chosen edges to a graph. The random engine is not modelled: the pairs it would
    draw are a finite sequence `samples`, consumed in order, and running out of samples is the `Starved` outcome,
    standing for a retry loop that has not finished yet. Two revisions are modelled: the current generator with its
    duplicate-edge and self-loop policies, and the older template generator. */
module GraphGenerator {
  import opened Seqs
  import opened EdgeList
  import opened AbstractUGraph
  import ALUGraph
  import AMUGraph
  import UndirectedGraph

  /** The graph being filled and the two policies. */
  datatype Generator = Generator(graph: Graph, allowDuplicates: bool, allowLoops: bool)

  /** What a request for edges ends with: the edges added, in order, with the samples left over; samples ran out
      before the request was met; or the `domain_error` raised before any edge is added, with the two numbers its
      message reports. */
  datatype Outcome =
    | Added(gen: Generator, added: seq<Edge>, rest: seq<Edge>)
    | Starved
    | CapacityError(maxEdges: nat, requested: nat)

  /** Both constructors start with both policies off. */
  function New(g: Graph): Generator
  {
    Generator(g, false, false)
  }

  // ----- capacity -----

  /** One edge per pair of distinct vertices among `n`, plus one self-loop per vertex when `loops` holds. */
  function MaxPairs(n: nat, loops: bool): nat
  {
    (if n == 0 then 0 else n * (n - 1) / 2) + (if loops then n else 0)
  }

  /** `maxEdges()`. */
  function MaxEdges(gen: Generator): nat
  {
    MaxPairs(V(gen.graph), gen.allowLoops)
  }

  /** `canAddEdges(n)`. */
  predicate CanAddEdges(gen: Generator, n: nat)
    requires Valid(gen.graph)
  {
    gen.allowDuplicates || n + E(gen.graph) <= MaxEdges(gen)
  }

  /** The unordered pairs `(v, w)`, `v <= w < n`, that the self-loop policy lets through. */
  ghost function Slots(n: nat, loops: bool): set<(nat, nat)>
  {
    set v: nat, w: nat | v <= w < n && (loops || v != w) :: (v, w)
  }

  /** The pairs `(v, m)` with `v < k`. */
  ghost function Column(k: nat, m: nat): set<(nat, nat)>
  {
    set v: nat | v < k :: (v, m)
  }

  lemma {:induction false} ColumnSize(k: nat, m: nat)
    ensures |Column(k, m)| == k
  {
    if k > 0 {
      ColumnSize(k - 1, m);
      assert Column(k, m) == Column(k - 1, m) + {(k - 1, m)};
    }
  }

  /** The pairs among `m + 1` vertices are those among `m` and those ending at `m`. */
  lemma SlotsGrow(m: nat, loops: bool)
    ensures Slots(m + 1, loops) == Slots(m, loops) + Column(if loops then m + 1 else m, m)
    ensures Slots(m, loops) * Column(if loops then m + 1 else m, m) == {}
  {
    var col := Column(if loops then m + 1 else m, m);
    forall p | p in Slots(m + 1, loops)
      ensures p in Slots(m, loops) + col
    {
      if p.1 == m {
        assert p == (p.0, m);
      }
    }
  }

  lemma MaxPairsGrow(m: nat, loops: bool)
    ensures MaxPairs(m + 1, loops) == MaxPairs(m, loops) + (if loops then m + 1 else m)
  {
    if m > 0 {
      assert (m + 1) * m == m * (m - 1) + 2 * m;
    }
  }

  /** The capacity counts exactly the pairs the self-loop policy lets through. */
  lemma {:induction false} SlotsSize(n: nat, loops: bool)
    ensures |Slots(n, loops)| == MaxPairs(n, loops)
  {
    if n > 0 {
      var m := n - 1;
      SlotsSize(m, loops);
      SlotsGrow(m, loops);
      ColumnSize(if loops then n else m, m);
      MaxPairsGrow(m, loops);
    }
  }

  // ----- the accept test -----

  /** The test `addEdge` applies to a sampled pair: a self-loop only when self-loops are allowed, and a pair
      already joined only when duplicates are allowed. */
  predicate Accepts(gen: Generator, v: nat, w: nat)
    requires v < V(gen.graph)
  {
    && (gen.allowLoops || v != w)
    && (gen.allowDuplicates || w !in Neighbors(gen.graph, v))
  }

  /** The unordered pairs that are joined. */
  ghost function Present(g: Graph): set<(nat, nat)>
  {
    set v: nat, w: nat | v <= w < V(g) && w in Neighbors(g, v) :: (v, w)
  }

  lemma {:induction false} SubsetSize<T>(a: set<T>, b: set<T>)
    requires a <= b
    ensures |a| <= |b|
    decreases |a|
  {
    if a != {} {
      var x :| x in a;
      SubsetSize(a - {x}, b - {x});
    }
  }

  /** When duplicates are off and no pair passes the accept test, every pair the self-loop policy lets through is
      already joined: the graph holds at least `maxEdges()` distinct edges. */
  lemma Saturated(gen: Generator)
    requires Valid(gen.graph) && !gen.allowDuplicates
    requires forall v: nat, w: nat :: v < V(gen.graph) && w < V(gen.graph) ==> !Accepts(gen, v, w)
    ensures MaxEdges(gen) <= |Present(gen.graph)|
  {
    var g := gen.graph;
    ValidShape(g);
    forall p | p in Slots(V(g), gen.allowLoops)
      ensures p in Present(g)
    {
      assert !Accepts(gen, p.0, p.1);
    }
    SubsetSize(Slots(V(g), gen.allowLoops), Present(g));
    SlotsSize(V(g), gen.allowLoops);
  }

  /** The retry loop can end: with duplicates off and fewer than `maxEdges()` distinct edges present, some pair
      passes the accept test. */
  lemma SomePairAccepted(gen: Generator)
    requires Valid(gen.graph) && !gen.allowDuplicates
    requires |Present(gen.graph)| < MaxEdges(gen)
    ensures exists v: nat, w: nat :: v < V(gen.graph) && w < V(gen.graph) && Accepts(gen, v, w)
  {
    if forall v: nat, w: nat :: v < V(gen.graph) && w < V(gen.graph) ==> !Accepts(gen, v, w) {
      Saturated(gen);
    }
  }

  // ----- one edge: the retry loop of addEdge -----

  /** The index of the first sample from `from` on that passes the accept test. */
  function FirstAccepted(gen: Generator, samples: seq<Edge>, from: nat): (r: Option<nat>)
    requires PairsInRange(samples, V(gen.graph))
    ensures r.Some? ==> from <= r.value < |samples| && Accepts(gen, samples[r.value].v, samples[r.value].w)
    ensures r.Some? ==> forall k :: from <= k < r.value ==> !Accepts(gen, samples[k].v, samples[k].w)
    ensures r.None? ==> forall k :: from <= k < |samples| ==> !Accepts(gen, samples[k].v, samples[k].w)
    decreases |samples| - from
  {
    if from >= |samples| then None
    else if Accepts(gen, samples[from].v, samples[from].w) then Some(from)
    else FirstAccepted(gen, samples, from + 1)
  }

  /** `addEdge()`: samples are drawn until one passes the accept test; rejected samples change nothing, and the
      accepted one, at index `k`, is added with one `addEdge` call and ends the loop. `None` when the samples run
      out first. */
  function AddOne(gen: Generator, samples: seq<Edge>): (r: Option<(nat, Generator)>)
    requires Valid(gen.graph) && PairsInRange(samples, V(gen.graph))
    ensures r.Some? ==>
              var (k, gen') := r.value;
              && k < |samples| && Accepts(gen, samples[k].v, samples[k].w)
              && (forall i :: 0 <= i < k ==> !Accepts(gen, samples[i].v, samples[i].w))
              && gen' == gen.(graph := AddEdge(gen.graph, samples[k].v, samples[k].w))
    ensures r.None? ==> forall k :: 0 <= k < |samples| ==> !Accepts(gen, samples[k].v, samples[k].w)
  {
    match FirstAccepted(gen, samples, 0)
    case None => None
    case Some(k) => Some((k, gen.(graph := AddEdge(gen.graph, samples[k].v, samples[k].w))))
  }

  /** A suffix of pairs in range is in range. */
  lemma DropInRange(P: seq<Edge>, k: nat, n: nat)
    requires PairsInRange(P, n) && k <= |P|
    ensures PairsInRange(P[k..], n)
  {
    assert forall i :: 0 <= i < |P| - k ==> P[k..][i] == P[k + i];
  }

  /** Each pair of `added` passed the accept test on the graph built from the pairs before it. */
  predicate AllAccepted(gen: Generator, added: seq<Edge>)
    requires Valid(gen.graph) && PairsInRange(added, V(gen.graph))
    decreases |added|
  {
    if added == [] then true
    else
      assert forall k :: 0 <= k < |added| - 1 ==> added[1..][k] == added[k + 1];
      && Accepts(gen, added[0].v, added[0].w)
      && AllAccepted(gen.(graph := AddEdge(gen.graph, added[0].v, added[0].w)), added[1..])
  }

  /** A non-empty accepted sequence: its first pair is accepted, the rest is accepted after it, and reading the
      sequence is adding the first pair and then reading the rest. */
  lemma AllAcceptedCons(gen: Generator, added: seq<Edge>)
    requires Valid(gen.graph) && PairsInRange(added, V(gen.graph)) && added != []
    requires AllAccepted(gen, added)
    ensures added[0].v < V(gen.graph) && added[0].w < V(gen.graph) && Accepts(gen, added[0].v, added[0].w)
    ensures PairsInRange(added[1..], V(gen.graph))
    ensures AllAccepted(gen.(graph := AddEdge(gen.graph, added[0].v, added[0].w)), added[1..])
    ensures ReadEdges(gen.graph, added) == ReadEdges(AddEdge(gen.graph, added[0].v, added[0].w), added[1..])
  {
    ReadEdgesCons(gen.graph, added);
  }

  /** A request for `n` edges that succeeded added exactly `n` pairs, in order, each passing the accept test at its
      turn, and left the generator with the graph `read_edges` builds from them; the policies are unchanged. */
  predicate Grown(gen: Generator, n: nat, r: Outcome)
    requires Valid(gen.graph)
  {
    r.Added? ==>
      && |r.added| == n && PairsInRange(r.added, V(gen.graph))
      && r.gen == gen.(graph := ReadEdges(gen.graph, r.added))
      && AllAccepted(gen, r.added)
  }

  /** `n` rounds of `addEdge()`: when the samples suffice, exactly `n` pairs were added, in order, each passing
      the accept test at its turn, and the graph is the one `read_edges` builds from them. */
  function Fill(gen: Generator, n: nat, samples: seq<Edge>): (r: Outcome)
    requires Valid(gen.graph) && PairsInRange(samples, V(gen.graph))
    ensures r.Added? || r.Starved?
    ensures Grown(gen, n, r)
    decreases n
  {
    if n == 0 then Added(gen, [], samples)
    else
      match AddOne(gen, samples)
      case None => Starved
      case Some((k, gen')) =>
        DropInRange(samples, k + 1, V(gen.graph));
        var r := Fill(gen', n - 1, samples[k + 1..]);
        if r.Starved? then Starved
        else
          GrownPrepend(gen, n, samples[k], gen', r);
          Added(r.gen, [samples[k]] + r.added, r.rest)
  }

  /** One round of `Fill`: an accepted pair in front of the `n - 1` pairs added after it is a grown request of `n`. */
  lemma GrownPrepend(gen: Generator, n: nat, e: Edge, gen': Generator, r: Outcome)
    requires Valid(gen.graph) && e.v < V(gen.graph) && e.w < V(gen.graph) && Accepts(gen, e.v, e.w)
    requires gen' == gen.(graph := AddEdge(gen.graph, e.v, e.w))
    requires n > 0 && r.Added? && Grown(gen', n - 1, r)
    ensures Grown(gen, n, Added(r.gen, [e] + r.added, r.rest))
  {
    AcceptedPrepend(gen, e, r.added);
  }

  /** An accepted pair followed by pairs accepted after it: the whole sequence is accepted, and reading it is
      adding the pair and then reading the rest. */
  lemma AcceptedPrepend(gen: Generator, e: Edge, added: seq<Edge>)
    requires Valid(gen.graph) && e.v < V(gen.graph) && e.w < V(gen.graph) && Accepts(gen, e.v, e.w)
    requires PairsInRange(added, V(gen.graph))
    requires AllAccepted(gen.(graph := AddEdge(gen.graph, e.v, e.w)), added)
    ensures PairsInRange([e] + added, V(gen.graph))
    ensures ReadEdges(gen.graph, [e] + added) == ReadEdges(AddEdge(gen.graph, e.v, e.w), added)
    ensures AllAccepted(gen, [e] + added)
  {
    var all := [e] + added;
    assert all[1..] == added && all[0] == e;
    assert PairsInRange(all, V(gen.graph));
    ReadEdgesCons(gen.graph, all);
  }

  /** `addEdges(n)`: the capacity check first, then `n` rounds of `addEdge()`. */
  function AddEdges(gen: Generator, n: nat, samples: seq<Edge>): (r: Outcome)
    requires Valid(gen.graph) && PairsInRange(samples, V(gen.graph))
    ensures r.CapacityError? <==> !CanAddEdges(gen, n)
    ensures r.CapacityError? ==> r.maxEdges == MaxEdges(gen) && r.requested == n + E(gen.graph)
    ensures Grown(gen, n, r)
  {
    if !CanAddEdges(gen, n) then CapacityError(MaxEdges(gen), n + E(gen.graph))
    else Fill(gen, n, samples)
  }

  /** The constructor taking an edge count: a generator with both policies off, followed by `addEdges`. */
  function NewWithEdges(g: Graph, n: nat, samples: seq<Edge>): (r: Outcome)
    requires Valid(g) && PairsInRange(samples, V(g))
    ensures r.CapacityError? <==> MaxPairs(V(g), false) < n + E(g)
    ensures r.Added? ==> !r.gen.allowDuplicates && !r.gen.allowLoops && |r.added| == n
    ensures r.Added? ==> PairsInRange(r.added, V(g)) && r.gen.graph == ReadEdges(g, r.added)
  {
    AddEdges(New(g), n, samples)
  }

  // ----- simple graphs stay simple -----

  /** No self-loop and no pair joined twice. */
  predicate Simple(g: Graph)
  {
    forall v, w {:trigger Count(Neighbors(g, v), w)} :: 0 <= v < V(g) && 0 <= w < V(g) ==>
      Count(Neighbors(g, v), w) <= (if v == w then 0 else 1)
  }

  /** In the matrix store, setting the cells of a pair that was not joined adds one listing at each end. */
  lemma MatrixFreshCount(am: AMUGraph.Graph, v: nat, w: nat, x: nat, y: nat)
    requires AMUGraph.Inv(am) && v < AMUGraph.V(am) && w < AMUGraph.V(am) && x < AMUGraph.V(am)
    requires !am.m[v][w]
    ensures Count(AMUGraph.Neighbors(AMUGraph.AddEdge(am, v, w), x), y) ==
            Count(AMUGraph.Neighbors(am, x), y) + (if (x == v && y == w) || (x == w && y == v) then 1 else 0)
  {
    var r := AMUGraph.AddEdge(am, v, w);
    if y < AMUGraph.V(am) {
      MatrixCount(am, x, y);
      MatrixCount(r, x, y);
    } else {
      AMUGraph.NeighborsSpec(am, x);
      AMUGraph.NeighborsSpec(r, x);
      assert y !in AMUGraph.Neighbors(am, x);
      assert y !in AMUGraph.Neighbors(r, x);
    }
  }

  /** Adding an edge between two distinct vertices not yet joined adds one listing at each end and nothing else,
      in every store. */
  lemma FreshEdgeCount(g: Graph, v: nat, w: nat, x: nat, y: nat)
    requires Valid(g) && v < V(g) && w < V(g) && x < V(g) && v != w && w !in Neighbors(g, v)
    ensures Count(Neighbors(AddEdge(g, v, w), x), y) ==
            Count(Neighbors(g, x), y) + (if (x == v && y == w) || (x == w && y == v) then 1 else 0)
  {
    match g
    case List(al) =>
      ALUGraph.AddEdgeNeighbors(al, v, w, x, y);
    case Legacy(ug) =>
      UndirectedGraph.AddEdgeNeighbors(ug, v, w, x, y);
    case Matrix(am) =>
      AMUGraph.NeighborsSpec(am, v);
      MatrixFreshCount(am, v, w, x, y);
  }

  /** Adding an accepted pair with both policies off keeps a simple graph simple. */
  lemma AddKeepsSimple(g: Graph, v: nat, w: nat)
    requires Valid(g) && Simple(g) && v < V(g) && w < V(g)
    requires Accepts(New(g), v, w)
    ensures Simple(AddEdge(g, v, w))
  {
    var r := AddEdge(g, v, w);
    assert v != w && w !in Neighbors(g, v);
    NeighborPair(g, v, w);
    forall x, y | 0 <= x < V(r) && 0 <= y < V(r)
      ensures Count(Neighbors(r, x), y) <= (if x == y then 0 else 1)
    {
      FreshEdgeCount(g, v, w, x, y);
      assert Count(Neighbors(g, x), y) <= (if x == y then 0 else 1);
    }
  }

  /** Pairs accepted one after another with both policies off keep a simple graph simple. */
  lemma {:induction false} AcceptedKeepSimple(gen: Generator, added: seq<Edge>)
    requires Valid(gen.graph) && !gen.allowDuplicates && !gen.allowLoops && Simple(gen.graph)
    requires PairsInRange(added, V(gen.graph)) && AllAccepted(gen, added)
    ensures Simple(ReadEdges(gen.graph, added))
    decreases |added|
  {
    if added != [] {
      var e := added[0];
      AllAcceptedCons(gen, added);
      AddKeepsSimple(gen.graph, e.v, e.w);
      AcceptedKeepSimple(gen.(graph := AddEdge(gen.graph, e.v, e.w)), added[1..]);
    }
  }

  /** With both policies off, the graph a request produces from a simple graph is simple. */
  lemma GeneratedSimple(g: Graph, n: nat, samples: seq<Edge>)
    requires Valid(g) && Simple(g) && PairsInRange(samples, V(g))
    ensures var r := NewWithEdges(g, n, samples);
            r.Added? ==> Simple(r.gen.graph)
  {
    var r := NewWithEdges(g, n, samples);
    if r.Added? {
      AcceptedKeepSimple(New(g), r.added);
    }
  }

  // ----- every round of a checked request has a pair to accept -----

  /** The unordered pair `{v, w}` as `Present` records it: smaller id first. */
  function Ordered(v: nat, w: nat): (p: (nat, nat))
    ensures p.0 <= p.1 && ((p.0 == v && p.1 == w) || (p.0 == w && p.1 == v))
  {
    if v <= w then (v, w) else (w, v)
  }

  /** After `addEdge(v, w)`, `y` is a neighbour of `x` exactly when it was one before or `{x, y}` is `{v, w}`. */
  lemma AddEdgeJoins(g: Graph, v: nat, w: nat, x: nat, y: nat)
    requires Valid(g) && v < V(g) && w < V(g) && x < V(g)
    ensures y in Neighbors(AddEdge(g, v, w), x) <==> y in Neighbors(g, x) || (x == v && y == w) || (x == w && y == v)
  {
    match g
    case List(al) => ListJoins(al, v, w, x, y);
    case Matrix(am) => MatrixJoins(am, v, w, x, y);
    case Legacy(ug) => LegacyJoins(ug, v, w, x, y);
  }

  lemma ListJoins(al: ALUGraph.Graph, v: nat, w: nat, x: nat, y: nat)
    requires v < ALUGraph.V(al) && w < ALUGraph.V(al) && x < ALUGraph.V(al)
    ensures var s := ALUGraph.Neighbors(ALUGraph.AddEdge(al, v, w), x);
            y in s <==> y in ALUGraph.Neighbors(al, x) || (x == v && y == w) || (x == w && y == v)
  {
    ALUGraph.AddEdgeNeighbors(al, v, w, x, y);
  }

  lemma MatrixJoins(am: AMUGraph.Graph, v: nat, w: nat, x: nat, y: nat)
    requires AMUGraph.Square(am) && v < AMUGraph.V(am) && w < AMUGraph.V(am) && x < AMUGraph.V(am)
    ensures var s := AMUGraph.Neighbors(AMUGraph.AddEdge(am, v, w), x);
            y in s <==> y in AMUGraph.Neighbors(am, x) || (x == v && y == w) || (x == w && y == v)
  {
    AMUGraph.NeighborsSpec(am, x);
    AMUGraph.NeighborsSpec(AMUGraph.AddEdge(am, v, w), x);
  }

  lemma LegacyJoins(ug: UndirectedGraph.Graph, v: nat, w: nat, x: nat, y: nat)
    requires v < UndirectedGraph.V(ug) && w < UndirectedGraph.V(ug) && x < UndirectedGraph.V(ug)
    ensures var s := UndirectedGraph.Neighbors(UndirectedGraph.AddEdge(ug, v, w), x);
            y in s <==> y in UndirectedGraph.Neighbors(ug, x) || (x == v && y == w) || (x == w && y == v)
  {
    UndirectedGraph.AddEdgeNeighbors(ug, v, w, x, y);
  }

  /** `addEdge(v, w)` records the pair `{v, w}` and no other. */
  lemma PresentAddEdge(g: Graph, v: nat, w: nat)
    requires Valid(g) && v < V(g) && w < V(g)
    ensures Present(AddEdge(g, v, w)) == Present(g) + {Ordered(v, w)}
  {
    var r := AddEdge(g, v, w);
    forall p ensures p in Present(r) <==> p in Present(g) || p == Ordered(v, w) {
      PresentAddEdgeAt(g, v, w, p);
    }
  }

  /** `PresentAddEdge` for one pair. */
  lemma PresentAddEdgeAt(g: Graph, v: nat, w: nat, p: (nat, nat))
    requires Valid(g) && v < V(g) && w < V(g)
    ensures p in Present(AddEdge(g, v, w)) <==> p in Present(g) || p == Ordered(v, w)
  {
    PresentIff(AddEdge(g, v, w), p);
    PresentIff(g, p);
    if p.0 < V(g) {
      AddEdgeJoins(g, v, w, p.0, p.1);
    }
  }

  /** The recorded pairs are the ordered pairs of joined vertices. */
  lemma PresentIff(g: Graph, p: (nat, nat))
    ensures p in Present(g) <==> p.0 <= p.1 < V(g) && p.1 in Neighbors(g, p.0)
  {
    if p.0 <= p.1 < V(g) && p.1 in Neighbors(g, p.0) {
      assert p == (p.0, p.1);
    }
  }

  /** `{a, b}` is recorded exactly when `b` is a neighbour of `a`. */
  lemma PresentMember(g: Graph, a: nat, b: nat)
    requires Valid(g) && a < V(g) && b < V(g)
    ensures Ordered(a, b) in Present(g) <==> b in Neighbors(g, a)
  {
    if b in Neighbors(g, a) {
      NeighborBack(g, a, b);
    }
    if a in Neighbors(g, b) {
      NeighborBack(g, b, a);
    }
  }

  /** With duplicates off, a pair that passes the accept test is new: it adds exactly one recorded pair. */
  lemma AcceptedAddsOne(gen: Generator, v: nat, w: nat)
    requires Valid(gen.graph) && !gen.allowDuplicates
    requires v < V(gen.graph) && w < V(gen.graph) && Accepts(gen, v, w)
    ensures |Present(AddEdge(gen.graph, v, w))| == |Present(gen.graph)| + 1
  {
    PresentAddEdge(gen.graph, v, w);
    PresentMember(gen.graph, v, w);
  }

  /** An accepted sequence of pairs records one new pair per entry. */
  lemma {:induction false} AcceptedPresent(gen: Generator, added: seq<Edge>)
    requires Valid(gen.graph) && !gen.allowDuplicates
    requires PairsInRange(added, V(gen.graph)) && AllAccepted(gen, added)
    ensures |Present(ReadEdges(gen.graph, added))| == |Present(gen.graph)| + |added|
    decreases |added|
  {
    if added != [] {
      var v, w := added[0].v, added[0].w;
      AllAcceptedCons(gen, added);
      AcceptedAddsOne(gen, v, w);
      AcceptedPresent(gen.(graph := AddEdge(gen.graph, v, w)), added[1..]);
    }
  }

  /** `addEdge` never records more new pairs than it adds to `e()`. */
  lemma PresentGrowth(g: Graph, v: nat, w: nat)
    requires Valid(g) && v < V(g) && w < V(g)
    ensures |Present(AddEdge(g, v, w))| + E(g) <= |Present(g)| + E(AddEdge(g, v, w))
  {
    PresentAddEdge(g, v, w);
    match g
    case List(al) =>
    case Matrix(am) =>
      AMUGraph.AddEdgeCount(am, v, w);
      AMUGraph.NeighborsSpec(am, v);
      PresentMember(g, v, w);
    case Legacy(ug) =>
  }

  /** Reading pairs keeps the recorded pairs within `e()`. */
  lemma {:induction false} ReadEdgesPresent(g: Graph, P: seq<Edge>)
    requires Valid(g) && PairsInRange(P, V(g)) && |Present(g)| <= E(g)
    ensures |Present(ReadEdges(g, P))| <= E(ReadEdges(g, P))
    decreases |P|
  {
    if P != [] {
      ReadEdgesCons(g, P);
      PresentGrowth(g, P[0].v, P[0].w);
      ReadEdgesPresent(AddEdge(g, P[0].v, P[0].w), P[1..]);
    }
  }

  /** The size constructors record no pair. */
  lemma NewNothingPresent(n: nat)
    ensures Present(List(ALUGraph.New(n))) == {}
    ensures Present(Matrix(AMUGraph.New(n))) == {}
    ensures Present(Legacy(UndirectedGraph.New(n))) == {}
  {
    var am := AMUGraph.New(n);
    forall v: nat | v < n
      ensures forall w :: w !in AMUGraph.Neighbors(am, v)
    {
      AMUGraph.NeighborsSpec(am, v);
    }
  }

  /** A graph built from a size constructor by `read_edges` records at most `e()` distinct pairs. */
  lemma BuiltPresent(n: nat, P: seq<Edge>)
    requires PairsInRange(P, n)
    ensures |Present(ReadEdges(List(ALUGraph.New(n)), P))| <= E(ReadEdges(List(ALUGraph.New(n)), P))
    ensures |Present(ReadEdges(Matrix(AMUGraph.New(n)), P))| <= E(ReadEdges(Matrix(AMUGraph.New(n)), P))
    ensures |Present(ReadEdges(Legacy(UndirectedGraph.New(n)), P))| <= E(ReadEdges(Legacy(UndirectedGraph.New(n)), P))
  {
    NewNothingPresent(n);
    ReadEdgesPresent(List(ALUGraph.New(n)), P);
    ReadEdgesPresent(Matrix(AMUGraph.New(n)), P);
    ReadEdgesPresent(Legacy(UndirectedGraph.New(n)), P);
  }

  /** The stream constructor of every store builds a graph holding at most `e()` distinct pairs, so
      `EveryRoundAccepts` applies to a generator over a graph read from input. */
  lemma FromInputPresent(t: seq<nat>)
    requires WellFormedInput(t)
    ensures |Present(List(ALUGraph.FromInput(t)))| <= E(List(ALUGraph.FromInput(t)))
    ensures |Present(Matrix(AMUGraph.FromInput(t)))| <= E(Matrix(AMUGraph.FromInput(t)))
    ensures |Present(Legacy(UndirectedGraph.FromInput(t)))| <= E(Legacy(UndirectedGraph.FromInput(t)))
  {
    var n, P := t[0], InputPairs(t);
    BuiltPresent(n, P);
    ListReadEdges(ALUGraph.New(n), P);
    MatrixReadEdges(AMUGraph.New(n), P);
    LegacyReadEdges(UndirectedGraph.New(n), P);
  }

  /** With duplicates off, on a graph holding at most `e()` distinct pairs (every graph `read_edges` builds from a
      size constructor, by `BuiltPresent`), a request that passes the capacity check never starves: after any
      accepted prefix shorter than the request, some pair still passes the accept test. */
  lemma EveryRoundAccepts(gen: Generator, n: nat, added: seq<Edge>)
    requires Valid(gen.graph) && !gen.allowDuplicates && |Present(gen.graph)| <= E(gen.graph)
    requires CanAddEdges(gen, n)
    requires PairsInRange(added, V(gen.graph)) && AllAccepted(gen, added) && |added| < n
    ensures exists v: nat, w: nat :: v < V(gen.graph) && w < V(gen.graph) &&
              Accepts(gen.(graph := ReadEdges(gen.graph, added)), v, w)
  {
    AcceptedPresent(gen, added);
    SomePairAccepted(gen.(graph := ReadEdges(gen.graph, added)));
  }

  // ----- the older template generator -----

  /** The capacity bound of the older generator, `V (V + 1) / 2`. */
  function OldBound(g: Graph): nat
  {
    V(g) * (V(g) + 1) / 2
  }

  /** The accept test of the older generator: no self-loop and no pair already joined. */
  predicate OldAccepts(g: Graph, v: nat, w: nat)
    requires v < V(g)
  {
    v != w && w !in Neighbors(g, v)
  }

  /** The older test is the current one with both policies off. */
  lemma OldAcceptsAsNew(g: Graph, v: nat, w: nat)
    requires v < V(g)
    ensures OldAccepts(g, v, w) <==> Accepts(New(g), v, w)
  {
  }

  /** The older bound counts a self-loop per vertex on top of the pairs of distinct vertices, although its accept
      test rejects every self-loop. */
  lemma OldBoundCountsLoops(g: Graph)
    ensures OldBound(g) == MaxEdges(New(g)) + V(g)
    ensures OldBound(g) == MaxEdges(New(g).(allowLoops := true))
  {
    var n := V(g);
    if n > 0 {
      assert n * (n + 1) == n * (n - 1) + 2 * n;
    }
  }

  /** `addEdges(n)` of the older generator, as written: the `V (V + 1) / 2` capacity check, then `n` rounds of its
      `addEdge()`. */
  function OldAddEdges(g: Graph, n: nat, samples: seq<Edge>): (r: Outcome)
    requires Valid(g) && PairsInRange(samples, V(g))
    ensures r.CapacityError? <==> OldBound(g) < n + E(g)
    ensures r.CapacityError? ==> r.maxEdges == OldBound(g) && r.requested == n + E(g)
    ensures r.Added? ==>
              && |r.added| == n && PairsInRange(r.added, V(g))
              && r.gen.graph == ReadEdges(g, r.added) && AllAccepted(New(g), r.added)
  {
    if OldBound(g) < n + E(g) then CapacityError(OldBound(g), n + E(g))
    else Fill(New(g), n, samples)
  }

  /** Requests between the two bounds pass the older check, while the current generator with both policies off
      refuses them. */
  lemma OldAdmitsMore(g: Graph, n: nat, samples: seq<Edge>)
    requires Valid(g) && PairsInRange(samples, V(g))
    requires MaxEdges(New(g)) < n + E(g) <= OldBound(g)
    ensures !OldAddEdges(g, n, samples).CapacityError?
    ensures AddEdges(New(g), n, samples).CapacityError?
  {
  }

  /** A single vertex with no edges. */
  function Lone(): (g: Graph)
    ensures Valid(g) && V(g) == 1 && E(g) == 0
  {
    List(ALUGraph.New(1))
  }

  /** On a single vertex, one edge passes the older capacity check (`1 <= 1`), yet every sample is a self-loop
      and is rejected, so however many samples are drawn the request never completes. The current generator
      refuses the same request up front. */
  lemma OldGeneratorStarves(samples: seq<Edge>)
    requires PairsInRange(samples, 1)
    ensures OldAddEdges(Lone(), 1, samples) == Starved
    ensures AddEdges(New(Lone()), 1, samples) == CapacityError(0, 1)
  {
    var g := Lone();
    forall k | 0 <= k < |samples|
      ensures !Accepts(New(g), samples[k].v, samples[k].w)
    {
      assert samples[k].v == 0 == samples[k].w;
    }
  }
}
