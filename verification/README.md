# sw_graphs undirected-graph core, modelled in Dafny

This project models the undirected-graph library of sw_graphs and proves properties of the model. The library has
five parts, and the model keeps each one:

- **Three graph stores.** `ALUGraph` is an adjacency list whose neighbour view collapses the two stored copies of a
  self-loop into one. `AMUGraph` is a symmetric boolean matrix. `UndirectedGraph` is the older adjacency list with
  no collapsing. Each store has a size constructor, a stream constructor that reads `V`, `E` and then `E` pairs,
  `v()`, `e()`, `verticesAdjacentTo`, `addEdge` and `toString`. The two newer stores also have `toInputString`,
  which writes the graph back in the edge-list format.
- **`AbstractUGraph`.** The searches, the component labelling and `findCycle` are templates over a graph type
  `G`. The current generator holds an `AbstractUGraph` pointer, and only `ALUGraph` and `AMUGraph` derive from that
  interface. The older `UndirectedGraph` does not, but it offers the `v()` and `verticesAdjacentTo` the templates
  use. The model stands for `G` by a sum type, `Graph = List | Matrix | Legacy`, that dispatches to each store.
  Walks and reachability are defined once, over the neighbour lists each store hands out.
- **Searches.** `BreadthFirstSearch` (a FIFO queue) and `DepthFirstSearch` (an explicit stack) both mark a vertex
  when it is pushed. They share the marking step, in `SearchMarks`.
- **Analyses.** `ConnectedComponents` labels the graph by scanning for roots. `GraphInfo.findCycle` runs an
  iterative depth-first search that records each vertex's ancestor. It stops at the first marked neighbour that is
  not that ancestor and rebuilds a cycle by walking ancestor links.
- **`GraphGenerator`.** Two revisions are modelled. Each has a capacity check and an accept test for a sampled
  pair. For the current revision, with duplicates off, a request that passes the check always finds a pair to
  accept. The older revision can starve.

Modelling conventions:

- Graphs are immutable datatypes over `seq<seq<nat>>` and `seq<seq<bool>>`.
- Vertex ids and sizes are unbounded `nat`.
- The text a stream constructor reads, and the text `toInputString` writes, are modelled as their sequences of
  numeric tokens. `EdgeList.WellFormedInput` is what a stream constructor demands of its input: enough tokens, and
  ids in range. The constructors never check their stream.
- The generator's random engine is a parameter. The pairs it would draw are a finite sequence `samples`, consumed
  in order. Running out of samples is the outcome `Starved`, which stands for a retry loop that has not finished
  yet.
- Where the code does not do what its comments or its own round-trip contract promise, the model has two members:
  - one that follows the code as written, with a lemma exhibiting the discrepancy;
  - one with the evident intent, which the rest of the model uses.

  These are listed under "## Findings".

## Model

| member | source | states |
|---|---|---|
| EdgeList.ReadPairs | include/AbstractUGraph.hpp:63-70 | The `k`-th pair read is tokens `2k` and `2k+1`, so exactly `count` pairs are read, in input order |
| EdgeList.InputPairs | ALUGraph.cpp:25-36 | A well-formed input yields exactly `E` pairs, each naming vertices below `V` |
| EdgeList.Flatten | ALUGraph.cpp:64-68 | Writing pairs puts each pair's two ids, in order, at positions `2k` and `2k+1` |
| EdgeList.InputTextReadBack | include/AbstractUGraph.hpp:57-58 | The text `V E` plus a list of pairs is readable exactly when it holds at least `E` pairs. When it holds exactly `E` pairs, reading it gives back those pairs in order |
| EdgeList.CollapseSelfLoopsHalves | include/ALUGraph.hpp:45-64 | If a vertex's own id occurs `k` times in its list, the neighbour view emits it `floor(k/2)` times |
| EdgeList.CollapseSelfLoopsKeepsOthers | include/ALUGraph.hpp:45-64 | The view keeps every entry other than the vertex's own id, in stored order |
| EdgeList.CollapseSelfLoopsSubsequence | include/ALUGraph.hpp:47-63 | The view is a subsequence of the stored list |
| EdgeList.WrittenTargetsCount | ALUGraph.cpp:60-70 | For row `i`, `toInputString` writes each neighbour `w > i` as often as the view lists it. It writes no neighbour below `i`, and writes the self-loop once per two occurrences in the view |
| EdgeList.WrittenTargetsLength | ALUGraph.cpp:61-68 | The as-written row is never longer than the row's entries at or above `i`. It is strictly shorter when the view lists `i` itself |
| EdgeList.SerializeCount | ALUGraph.cpp:60-71 | Pair `(a, b)` is written as often as `b` is a target of row `a`, and never for a row outside the scanned range |
| EdgeList.SerializeOrder | ALUGraph.cpp:60-70 | Every written pair has first id ≤ second id, and pairs come by ascending first id |
| EdgeList.SerializeWrittenVsFixed | ALUGraph.cpp:61-68 | The as-written emission is never longer than the one that writes every self-loop the view lists. It is strictly shorter when some row lists its own vertex, and identical when none does |
| EdgeList.SerializeSorted | AMUGraph.cpp:60-70 | When each row's targets strictly increase, the written pairs are in strictly increasing lexicographic order |
| AdjacencyLists.Empty | include/ALUGraph.hpp:25 | The size constructor's store has `n` lists, all empty |
| AdjacencyLists.Link | include/ALUGraph.hpp:70-74 | `addEdge(v, w)` appends `w` to list `v` and `v` to list `w`, and `v` twice for a self-loop. No other list changes |
| AdjacencyLists.LinkTotal | include/ALUGraph.hpp:36-42 | Each `addEdge` adds two list entries, so `e()` grows by exactly one, duplicates included |
| AdjacencyLists.LinkCount | include/ALUGraph.hpp:70-74 | After `addEdge(v, w)`, list `x` holds `y` one more time for each orientation of the new pair that starts at `x` and ends at `y` |
| AdjacencyLists.LinkInv | include/ALUGraph.hpp:70-74 | `addEdge` keeps ids in range, keeps the count symmetry between distinct vertices, and keeps self-loop counts even |
| AdjacencyLists.ReadEdgesLists | include/AbstractUGraph.hpp:65-68 | After reading pairs, list `x` is its old contents followed by what each pair contributes to `x`, in input order |
| AdjacencyLists.ReadEdgesTotal | include/AbstractUGraph.hpp:63-70 | Reading `k` pairs adds `2k` entries and keeps the store invariant |
| AdjacencyLists.ContributionsCount | include/ALUGraph.hpp:70-74 | Reading appends `y` to list `x` once per input pair `(x, y)` and once per input pair `(y, x)` |
| ALUGraph.New | include/ALUGraph.hpp:25 | A new graph has `size` vertices, `e() == 0` and no neighbours |
| ALUGraph.AddEdge | include/ALUGraph.hpp:70-74 | `v()` is unchanged, `e()` grows by exactly one even for a duplicate, and the invariant is kept |
| ALUGraph.ReadEdges | include/AbstractUGraph.hpp:63-70 | Reading `k` pairs keeps `v()` and grows `e()` by `k` |
| ALUGraph.FromInput | src/ALUGraph.cpp:25-32 | After construction, `v() == vertex_count` and `e() == edge_count`, duplicates and self-loops included |
| ALUGraph.Rows | ALUGraph.cpp:39-54 | Each `toString` row agrees with the stored list on every other vertex, and holds the vertex itself half as often |
| ALUGraph.NeighborsSpec | include/ALUGraph.hpp:45-64 | The view is a subsequence of the stored list. It keeps every other entry, and holds the vertex itself half as often as stored |
| ALUGraph.NeighborsInv | include/ALUGraph.hpp:45-64 | Listed neighbours are vertices. Distinct vertices list each other equally often. A vertex lists itself exactly when a self-loop is stored |
| ALUGraph.AddEdgeNeighbors | include/ALUGraph.hpp:70-74 | After `addEdge(v, w)`, the view of `x` lists `y` one more time exactly when `{x, y}` is `{v, w}`; a self-loop also shows once more |
| ALUGraph.FromInputNeighbors | ALUGraph.cpp:25-36 | After reading, the view of `x` lists `y` once per input pair naming `{x, y}` in either order, and lists `x` itself once per pair `(x, x)` |
| ALUGraph.InputStringFixedRoundTrip | include/AbstractUGraph.hpp:57-58 | With self-loops written once each, reading `toInputString`'s output gives the same graph up to list order. The header's `e()` equals the number of pairs written |
| ALUGraph.InputStringRoundTrip | ALUGraph.cpp:56-74 | As written, the output is readable exactly when the graph has no self-loop. Without self-loops it equals the corrected output |
| ALUGraph.WrittenPairsFewer | ALUGraph.cpp:61-68 | With a self-loop, fewer pairs are written than the header's `e()` announces |
| ALUGraph.InputStringOrder | ALUGraph.cpp:60-70 | Every pair written has first ≤ second, and pairs come by ascending first vertex |
| ALUGraph.SelfLoopDropped | ALUGraph.cpp:63-68 | One vertex with one self-loop is written as `1 1` with no pair, which cannot be read back; the corrected writer gives `1 1 0 0` |
| AMUGraph.New | include/AMUGraph.hpp:25 | The size constructor builds a `V × V` matrix, every cell false, with `e() == 0` |
| AMUGraph.SetCell | include/AMUGraph.hpp:65-68 | Setting a cell changes that cell alone |
| AMUGraph.AddEdge | include/AMUGraph.hpp:65-68 | `addEdge(v, w)` sets exactly the cells `(v, w)` and `(w, v)`. `v()` is unchanged and the matrix stays square and symmetric |
| AMUGraph.AddEdgeCount | include/AMUGraph.hpp:36-42 | `e()` grows by one exactly when the pair was not yet joined |
| AMUGraph.AddEdgeIdempotent | include/AMUGraph.hpp:65-68 | Adding the same edge twice is the same as adding it once |
| AMUGraph.NeighborsSpec | include/AMUGraph.hpp:45-59 | The neighbours are exactly the `w` with `m[v][w]`, in strictly increasing order. `degree(v)` is their number plus one when `m[v][v]` holds |
| AMUGraph.Rows | AMUGraph.cpp:39-54 | Each `toString` row lists exactly the joined vertices, in strictly increasing order, so without repeats |
| AMUGraph.ReadEdgesCells | include/AbstractUGraph.hpp:63-70 | After reading, a cell is set exactly when it was set before or some input pair names it, in either order |
| AMUGraph.ReadEdgesSnoc | include/AbstractUGraph.hpp:65-68 | Reading one more pair is one more `addEdge` after the others |
| AMUGraph.ReadEdgesCount | include/AMUGraph.hpp:36-42 | From an empty matrix, `e()` plus the number of repeated pairs equals the number of pairs read |
| AMUGraph.NoRepeats | src/AMUGraph.cpp:35 | An input has no repeated pairs exactly when no two of its pairs name the same undirected edge |
| AMUGraph.FromInputCells | src/AMUGraph.cpp:25-36 | After construction, a cell is set exactly when some input pair names it |
| AMUGraph.FromInputCount | src/AMUGraph.cpp:25-36 | After construction, `e() ≤ edge_count`, with equality exactly when no undirected pair repeats |
| AMUGraph.FixedPairCount | AMUGraph.cpp:60-70 | With self-loops written, each joined pair `a ≤ b` is written exactly once, as `(a, b)`, and nothing else is written |
| AMUGraph.FixedNamed | AMUGraph.cpp:60-70 | With self-loops written, the output names `{x, y}` exactly when `x` and `y` are joined |
| AMUGraph.InputStringFixedRoundTrip | include/AbstractUGraph.hpp:57-58 | With self-loops written, reading the output gives back the same matrix, and the header's `e()` equals the number of pairs |
| AMUGraph.InputStringRoundTrip | AMUGraph.cpp:56-74 | As written, the output is readable exactly when the graph has no self-loop. Without self-loops it equals the corrected output |
| AMUGraph.InputStringSorted | AMUGraph.cpp:60-70 | Pairs are written in strictly increasing order, first by `i` and then by `w` |
| AMUGraph.SelfLoopDropped | AMUGraph.cpp:61-68 | One vertex with one self-loop is written as `1 1` with no pair, which cannot be read back; the corrected writer gives `1 1 0 0` |
| UndirectedGraph.New | UndirectedGraph.cpp:23 | The size constructor makes `size` vertices with empty lists and `e() == 0` |
| UndirectedGraph.AddEdge | UndirectedGraph.cpp:56-60 | `addEdge(v, w)` appends `w` to the neighbours of `v` and `v` to those of `w`, both for a self-loop. No other list changes, `v()` is unchanged and `e()` grows by one |
| UndirectedGraph.ReadEdges | UndirectedGraph.cpp:31-35 | Reading `k` pairs grows `e()` by `k`. Each vertex's neighbours become the old ones followed by the ids the pairs append, in input order |
| UndirectedGraph.FromInput | UndirectedGraph.cpp:25-36 | After construction, `v() == V` and `e() == E`. Each vertex's neighbours are the ids the input pairs append to it, in input order |
| UndirectedGraph.Rows | UndirectedGraph.cpp:62-77 | Each `toString` row is that vertex's raw list. On a valid store it shows each neighbour as often as the `ALUGraph` view of the same lists does, and a self-loop twice as often |
| UndirectedGraph.AddEdgeNeighbors | UndirectedGraph.cpp:56-60 | After `addEdge(v, w)`, list `x` holds `y` once more for each orientation of the new pair from `x` to `y`, so a self-loop shows twice more |
| UndirectedGraph.FromInputNeighbors | UndirectedGraph.cpp:25-36 | After reading, list `x` holds `y` once per input pair `(x, y)` and once per pair `(y, x)` |
| UndirectedGraph.DegreeSumTotal | UndirectedGraph.cpp:43-49 | Summing list lengths vertex by vertex accounts for every stored entry |
| UndirectedGraph.FromInputHandshake | UndirectedGraph.cpp:43-49 | After construction, the sum of all list lengths is `2 e()` |
| UndirectedGraph.NeighborsVersusView | UndirectedGraph.cpp:51-54 | The raw list shows each other vertex as often as `ALUGraph`'s collapsed view does, and a self-loop twice as often |
| AbstractUGraph.AddEdge | include/AbstractUGraph.hpp:48-50 | On every store, after `addEdge(v, w)` each endpoint is a neighbour of the other, and `e()` grows by at most one |
| AbstractUGraph.ReadEdges | include/AbstractUGraph.hpp:63-70 | `read_edges` keeps the store valid and `v()` unchanged |
| AbstractUGraph.ListReadEdges | include/AbstractUGraph.hpp:63-70 | `read_edges` through the interface builds the same list store as `ALUGraph`'s own `read_edges` |
| AbstractUGraph.MatrixReadEdges | include/AbstractUGraph.hpp:63-70 | `read_edges` through the interface builds the same matrix as `AMUGraph`'s own `read_edges` |
| AbstractUGraph.LegacyReadEdges | UndirectedGraph.cpp:31-35 | Adding the pairs one by one through the sum type builds the same lists as the older store's own edge-reading loop |
| AbstractUGraph.ValidShape | include/AbstractUGraph.hpp:44-50 | Every store lists only vertices as neighbours, and distinct vertices list each other equally often |
| AbstractUGraph.NeighborBack | include/AbstractUGraph.hpp:44-50 | A vertex is a neighbour of each of its neighbours |
| AbstractUGraph.ReachableSymmetric | include/AbstractUGraph.hpp:44-50 | Reachability is symmetric in every store |
| AbstractUGraph.ClosedMarksReach | include/BreadthFirstSearch.hpp:32-49 | A mark set that is closed under neighbours and holds `s` holds everything reachable from `s` |
| SearchMarks.Start | include/BreadthFirstSearch.hpp:26-27 | The source is marked and counted before the loop, and nothing else is marked |
| SearchMarks.MarkNeighbors | include/BreadthFirstSearch.hpp:39-48 | Every unmarked neighbour is marked and appended once. Marks only grow, stay reachable and match the push order, and the current vertex ends up explored |
| SearchMarks.MarkStep | include/DepthFirstSearch.hpp:38-44 | Marking a new neighbour at push time keeps the count equal to the marks and keeps every mark reachable |
| SearchMarks.Complete | include/BreadthFirstSearch.hpp:32-49 | Once every pushed vertex is explored, the marks are exactly the vertices reachable from the source, and `1 ≤ count ≤ v()` |
| BreadthFirstSearch.Search | include/BreadthFirstSearch.hpp:18-56 | `marked(v)` holds exactly for the vertices reachable from `s`. `count()` is the number marked, between 1 and `v()`. Each vertex is enqueued at most once, the source first |
| DepthFirstSearch.Search | include/DepthFirstSearch.hpp:20-54 | `marked(v)` holds exactly for the vertices reachable from `s`. `count()` is the number marked, between 1 and `v()`. Each vertex is pushed at most once, the source first |
| DepthFirstSearch.SearchesAgree | include/DepthFirstSearch.hpp:32-47 | For the same graph and source, BFS and DFS give the same marks and count |
| ConnectedComponents.ComponentsAsWritten | include/ConnectedComponents.hpp:21-55 | As written, every vertex becomes a root with its own id, and `count() == v()` |
| ConnectedComponents.AsWrittenSplitsEdge | include/ConnectedComponents.hpp:48-55 | On two joined vertices, the as-written pass reports them not connected and counts two components |
| ConnectedComponents.Label | include/ConnectedComponents.hpp:50-51 | Labelling a found component marks exactly the found vertices, gives them the current id, and keeps the other ids |
| ConnectedComponents.Handle | include/ConnectedComponents.hpp:29-32 | An unmarked vertex starts a new component and an already marked one does not. The labelling invariant grows by one vertex |
| ConnectedComponents.Finished | include/ConnectedComponents.hpp:36-43 | At the end of the scan, `connected(a, b)` holds exactly when `b` is reachable from `a` |
| ConnectedComponents.Components | include/ConnectedComponents.hpp:21-43 | `connected(a, b)` holds exactly when `b` is reachable from `a`. Every id is below `count() ≤ v()`. Roots are increasing, get ids 0, 1, 2, … in order, and each is the smallest vertex of its component |
| ConnectedComponents.CorrectedJoinsEdge | include/ConnectedComponents.hpp:37 | On two joined vertices, the corrected pass reports them connected and counts one component |
| GraphInfo.ForestAcyclic | include/GraphInfo.hpp:21-24 | A graph whose ancestor links form a forest, with no self-loops at roots, has no cycle |
| GraphInfo.ForestCycles | include/GraphInfo.hpp:77-82 | In a forest that tolerates root self-loops, the only cycles are self-loops at roots |
| GraphInfo.ChainFacts | include/GraphInfo.hpp:94-95 | The ancestor chain from a popped vertex up to its common ancestor is a walk of popped vertices with decreasing depth |
| GraphInfo.WalkChain | include/GraphInfo.hpp:94-95 | The ancestor walk terminates and returns the chain from the link's first vertex up to, but not including, the common ancestor |
| GraphInfo.LinkCycle | include/GraphInfo.hpp:88-100 | For a link between distinct vertices, the ancestor chain followed by the common ancestor and the link's second vertex is a cycle |
| GraphInfo.EchoCycle | include/GraphInfo.hpp:77-100 | A self-loop at a non-root vertex makes the as-written reconstruction `[top, ancestor, top]` |
| GraphInfo.Reconstruct | include/GraphInfo.hpp:88-100 | Corrected, the rebuilt sequence is a cycle. As written, it is a cycle of two or more vertices, or the self-loop echo above |
| GraphInfo.Explore | include/GraphInfo.hpp:63-84 | Popping and scanning one vertex finishes it, keeps marks, and either keeps the search invariant or finds a link |
| GraphInfo.SearchTree | include/GraphInfo.hpp:53-84 | A search from a new root marks the root, keeps earlier marks, and either ends idle or finds a link |
| GraphInfo.SearchAll | include/GraphInfo.hpp:51-85 | The scan over roots either finds a link or ends with every vertex marked and the search invariant intact |
| GraphInfo.AllDoneForest | include/GraphInfo.hpp:51-103 | If nothing was found and every vertex is marked, the edges are exactly the ancestor links, once each |
| GraphInfo.FindCycleIn | include/GraphInfo.hpp:26-104 | `findCycle` over neighbour lists, in both variants. What it returns is a cycle (corrected) or a cycle or echo (as written). `None` means the graph is a forest; as written, roots may also carry self-loops |
| GraphInfo.FindCycle | include/GraphInfo.hpp:21-104 | Corrected: what is returned is a cycle, and `None` is returned exactly when the graph has no cycle |
| GraphInfo.FindCycleAsWritten | include/GraphInfo.hpp:26-104 | As written: what is returned is a cycle of two or more vertices or a self-loop echo. `None` only means that every cycle is a single self-loop |
| GraphInfo.RootSelfLoopMissed | include/GraphInfo.hpp:53-82 | On one vertex with a self-loop, the as-written finder returns nothing and the corrected one returns `[0]` |
| GraphInfo.TwoLoopsFacts | include/GraphInfo.hpp:77-100 | On two joined vertices that each have a self-loop, the only cycles are the self-loops, and the echoes `[0,1,0]` and `[1,0,1]` are not cycles |
| GraphInfo.NonRootSelfLoopEcho | include/GraphInfo.hpp:77-100 | On that graph, the as-written finder reports an echo that is not a cycle, and the corrected one reports a self-loop |
| GraphGenerator.SlotsSize | include/GraphGenerator.hpp:82-89 | `maxEdges()` is exactly the number of unordered pairs the self-loop policy lets through |
| GraphGenerator.Saturated | include/GraphGenerator.hpp:99-104 | With duplicates off, if no pair passes the accept test then at least `maxEdges()` distinct edges are present |
| GraphGenerator.SomePairAccepted | include/GraphGenerator.hpp:75-117 | With duplicates off and fewer than `maxEdges()` distinct edges present, some pair passes the accept test |
| GraphGenerator.FirstAccepted | include/GraphGenerator.hpp:94-117 | The retry loop stops at the first sample that passes the accept test, and every sample before it fails |
| GraphGenerator.AddOne | include/GraphGenerator.hpp:91-118 | One `addEdge()` adds exactly the first accepted sample through one `addEdge`. Rejected samples change nothing. With no accepted sample, nothing is added |
| GraphGenerator.Fill | include/GraphGenerator.hpp:57-58 | `n` rounds add exactly `n` pairs, in order, each accepted at its turn. The graph is the one `read_edges` builds from them |
| GraphGenerator.AddEdges | include/GraphGenerator.hpp:46-59 | `addEdges(n)` throws before adding anything exactly when `canAddEdges(n)` fails, reporting `maxEdges()` and `n + e()`. Otherwise it adds `n` accepted pairs |
| GraphGenerator.NewWithEdges | include/GraphGenerator.hpp:35-43 | The counting constructor leaves both policies off, and fails exactly when `V(V-1)/2 < n + e()` |
| GraphGenerator.AddKeepsSimple | include/GraphGenerator.hpp:99-108 | With both policies off, adding an accepted pair keeps a simple graph simple |
| GraphGenerator.AcceptedKeepSimple | include/GraphGenerator.hpp:94-108 | With both policies off, a run of accepted pairs keeps a simple graph simple |
| GraphGenerator.GeneratedSimple | include/GraphGenerator.hpp:35-43 | The counting constructor, on a simple graph, produces a simple graph |
| GraphGenerator.GrownPrepend | include/GraphGenerator.hpp:57-58 | An accepted pair followed by `n - 1` pairs accepted after it is a completed request for `n` edges |
| GraphGenerator.AddEdgeJoins | include/AbstractUGraph.hpp:48-50 | On every store, after `addEdge(v, w)`, `y` is a neighbour of `x` exactly when it was one before or `{x, y}` is `{v, w}` |
| GraphGenerator.PresentAddEdge | include/AbstractUGraph.hpp:48-50 | `addEdge(v, w)` adds the unordered pair `{v, w}` to the distinct edges present and changes no other pair |
| GraphGenerator.PresentMember | include/AbstractUGraph.hpp:43-44 | The pair `{a, b}` is present exactly when `b` is among the vertices adjacent to `a` |
| GraphGenerator.AcceptedAddsOne | include/GraphGenerator.hpp:99-107 | With duplicates off, an accepted pair is a new edge, so the number of distinct edges present grows by exactly one |
| GraphGenerator.AcceptedPresent | include/GraphGenerator.hpp:57-58 | With duplicates off, `k` accepted pairs add exactly `k` distinct edges |
| GraphGenerator.PresentGrowth | include/AbstractUGraph.hpp:48-50 | On every store, `addEdge` adds no more distinct edges than it adds to `e()` |
| GraphGenerator.ReadEdgesPresent | include/AbstractUGraph.hpp:63-70 | `read_edges` keeps the number of distinct edges present within `e()` |
| GraphGenerator.NewNothingPresent | include/ALUGraph.hpp:25 | The size constructors of all three stores start with no edge present |
| GraphGenerator.BuiltPresent | include/AbstractUGraph.hpp:63-70 | A graph built from a size constructor by `read_edges` has at most `e()` distinct edges, in every store |
| GraphGenerator.FromInputPresent | src/AMUGraph.cpp:25-35 | A graph read by the stream constructor of any store has at most `e()` distinct edges, so a generator over it never starves on a checked request |
| GraphGenerator.EveryRoundAccepts | include/GraphGenerator.hpp:46-59 | With duplicates off, on a graph with at most `e()` distinct edges, a request that passes `canAddEdges` never starves. After any accepted prefix shorter than the request, some pair still passes the accept test |
| GraphGenerator.OldAcceptsAsNew | GraphGenerator.hpp:66-68 | The older accept test is the current one with both policies off |
| GraphGenerator.OldBoundCountsLoops | GraphGenerator.hpp:41 | The older bound `V(V+1)/2` is the current bound plus one self-loop per vertex |
| GraphGenerator.OldAddEdges | GraphGenerator.hpp:38-53 | The older `addEdges(n)` throws exactly when `V(V+1)/2 < n + e()`. Otherwise it adds `n` accepted pairs, never a self-loop or a duplicate |
| GraphGenerator.OldAdmitsMore | GraphGenerator.hpp:40-42 | A request between the two bounds passes the older check but is refused by the current generator |
| GraphGenerator.OldGeneratorStarves | GraphGenerator.hpp:38-68 | On one vertex, a request for one edge passes the older check but can never finish, whatever is sampled. The current generator refuses it up front |

## Left out

- The driver programs are not part of this model. They cover command-line parsing, file and console I/O, and interactive loops.
- `UndirectedGraph.hpp` is not part of this model. It only declares the class, and its by-value `istream` constructor does not match the definition in `UndirectedGraph.cpp`.
- Stream parsing and stream error states are not modelled. The constructors never check their stream, so the model asks for a well-formed token sequence (`EdgeList.WellFormedInput`) rather than inventing parse errors.
- `toString` is modelled as its row contents (`Rows` in each store). The field width is computed with a floating-point `log10` and is not modelled.
- `std::clog` messages and `operator<<` are output only and are not modelled.
- `UndirectedGraph.cpp` has no `toInputString`, so the legacy store has no serialiser in the model.
- `size_t` wrap-around is not modelled; ids and counts are unbounded naturals. This includes `v()-1` in the generators' distribution bound when `V = 0`, and overflow of `V(V+1)/2`.
- The call to `readEdges` in `src/ALUGraph.cpp` and `src/AMUGraph.cpp` does not match the interface's `read_edges`. This build inconsistency is not modelled; both are `ReadEdges`.
- Virtual dispatch and the heap-owned graph of the current generator are not modelled. The interface is a sum type, and the generator holds its graph by value.
- The generator's random engine and uniform distribution are a `samples` parameter. The model says nothing about probabilities or about eventual termination; running out of samples is `Starved`.
- `getGraph()` and the generator's policy getters and setters are not members. The policies are the `Generator` record's fields, and setting one is a record update.
- `ConnectedComponents`' `traceProgress` flag and output stream only write trace text and are not modelled. `_ids` is an `int` vector there and naturals here.
- `BreadthFirstSearch` and `DepthFirstSearch` are modelled as methods returning the marks and the count. `marked(v)` and `count()` are reads of those results.
- The `Legacy` case of the current generator has no counterpart in the source. `UndirectedGraph` does not derive from `AbstractUGraph`, so the generator cannot hold one. The case is there only because the sum type also stands for the templates' `G`.
- ConnectedComponents.ComponentsAsWritten: the undeclared `dfs` that the inner search would call is not modelled. The guard before it is always false, so the model never reaches the call. The source as written does not compile when the template is instantiated.
- GraphGenerator.SomePairAccepted: this is stated in terms of the distinct edges present, not `e()`. `GraphGenerator.BuiltPresent` and `GraphGenerator.EveryRoundAccepts` connect the two for graphs built by `read_edges`. A graph whose `e()` undercounts its distinct edges is not covered.
- ALUGraph.InputStringFixedRoundTrip: the graph read back equals the original only up to the order within each adjacency list. Reading the written pairs can list neighbours in a different order than the original insertion order.
- GraphInfo.FindCycle: the contract states that the result is a cycle. It does not state which cycle; that depends on the neighbour order the model follows.

## Findings

| source | as written | input that shows it | evidently intended | confidence | as-written member | corrected member |
|---|---|---|---|---|---|---|
| ALUGraph.cpp:63-68 | `toInputString` halves self-loops a second time. The neighbour view has already collapsed each stored pair to one entry | one vertex with `addEdge(0, 0)`: header `1 1`, no pair written | each self-loop written once, so the output reads back to the same graph | not executed | ALUGraph.SelfLoopDropped | ALUGraph.InputStringFixedRoundTrip |
| AMUGraph.cpp:61-66 | the matrix lists a self-loop once, so the "second occurrence" test never writes it, yet `e()` counts it | one vertex with `addEdge(0, 0)`: header `1 1`, no pair written | each self-loop written once, so the output reads back to the same matrix | not executed | AMUGraph.SelfLoopDropped | AMUGraph.InputStringFixedRoundTrip |
| include/ConnectedComponents.hpp:53-54 | the inner search tests `_marks[source]`, which is already set, so no neighbour is ever visited. The guarded call names `dfs`, which is declared nowhere, so the template does not compile once it is instantiated, as `src/ConnectedComponentsDriver.cpp` does. The model follows the guard: the call is never reached | two vertices joined by one edge: `connected(0, 1)` is false and `count()` is 2 | each root labels every vertex reachable from it | not executed | ConnectedComponents.AsWrittenSplitsEdge | ConnectedComponents.CorrectedJoinsEdge |
| include/GraphInfo.hpp:77 | a root is its own ancestor, so its self-loop is skipped as the tree edge | one vertex with a self-loop: `findCycle` returns nothing | the self-loop reported as the cycle `[0]` | not executed | GraphInfo.RootSelfLoopMissed | GraphInfo.FindCycle |
| include/GraphInfo.hpp:77-100 | a self-loop at a non-root vertex is taken as a link, and the reconstruction returns the tree edge walked there and back | two joined vertices, each with a self-loop: the result is `[0,1,0]` or `[1,0,1]`, which is not a cycle | the self-loop reported as a one-vertex cycle | not executed | GraphInfo.NonRootSelfLoopEcho | GraphInfo.FindCycle |
| GraphGenerator.hpp:41 | the capacity bound `V(V+1)/2` counts `V` self-loops that the accept test always rejects | one vertex, one edge requested: the check passes and every sample is rejected forever | bound `V(V-1)/2`, as in the current generator | not executed | GraphGenerator.OldGeneratorStarves | GraphGenerator.EveryRoundAccepts |
