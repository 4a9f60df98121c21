/** `AMUGraph`: the undirected graph stored as a square boolean adjacency matrix. Adding an edge sets both of its
    cells, so a repeated edge is stored once; `e()` counts the set cells on and above the diagonal, and
    `toInputString` writes the graph back in the edge-list format. */
module AMUGraph {
  import opened Seqs
  import opened EdgeList

  /** `m[v][w]` records whether `v` and `w` are joined. */
  datatype Graph = Graph(m: seq<seq<bool>>)

  /** Every row has one cell per vertex. */
  predicate Square(g: Graph)
  {
    forall r :: 0 <= r < |g.m| ==> |g.m[r]| == |g.m|
  }

  /** Every graph the constructors and `addEdge` build satisfies this: square and symmetric. */
  predicate Inv(g: Graph)
  {
    Square(g) && forall v, w :: 0 <= v < |g.m| && 0 <= w < |g.m| ==> g.m[v][w] == g.m[w][v]
  }

  /** Number of vertices. */
  function V(g: Graph): nat
  {
    |g.m|
  }

  /** Set cells on and above the diagonal in the rows `r`, `r + 1`, ... */
  function UpperFrom(g: Graph, r: nat): nat
    requires Square(g)
    requires r <= V(g)
    decreases V(g) - r
  {
    if r == V(g) then 0 else CountTrue(g.m[r][r..]) + UpperFrom(g, r + 1)
  }

  /** Number of edges: the set cells on and above the diagonal, a self-loop counted once. */
  function E(g: Graph): nat
    requires Square(g)
  {
    UpperFrom(g, 0)
  }

  /** The size constructor: `size` vertices and no edge. */
  function New(size: nat): (g: Graph)
    ensures V(g) == size && Inv(g) && E(g) == 0
    ensures forall v, w :: 0 <= v < size && 0 <= w < size ==> !g.m[v][w]
  {
    var g := Graph(seq(size, _ => seq(size, _ => false)));
    NoCellsNoEdges(g, 0);
    g
  }

  /** The column indices of the set cells of `row` from column `from` on, in ascending order. */
  function TrueIndices(row: seq<bool>, from: nat): seq<nat>
    decreases |row| - from
  {
    if from >= |row| then [] else (if row[from] then [from] else []) + TrueIndices(row, from + 1)
  }

  /** `verticesAdjacentTo(v)`: the columns set in row `v`, ascending. */
  function Neighbors(g: Graph, v: nat): seq<nat>
    requires v < V(g)
  {
    TrueIndices(g.m[v], 0)
  }

  /** `degree(v)`: the set cells of row `v`, plus one more for a self-loop. */
  function Degree(g: Graph, v: nat): nat
    requires Square(g)
    requires v < V(g)
  {
    CountTrue(g.m[v]) + (if g.m[v][v] then 1 else 0)
  }

  /** Cell `r c` set; no other cell changes. */
  function SetCell(g: Graph, r: nat, c: nat): (h: Graph)
    requires Square(g)
    requires r < V(g) && c < V(g)
    ensures V(h) == V(g) && Square(h)
    ensures forall x, y :: 0 <= x < V(g) && 0 <= y < V(g) ==> h.m[x][y] == (g.m[x][y] || (x == r && y == c))
  {
    Graph(g.m[r := g.m[r][c := true]])
  }

  /** `addEdge(v, w)`: both cells of the pair are set; adding an edge again changes nothing. */
  function AddEdge(g: Graph, v: nat, w: nat): (h: Graph)
    requires Square(g)
    requires v < V(g) && w < V(g)
    ensures V(h) == V(g) && Square(h)
    ensures forall x, y :: 0 <= x < V(g) && 0 <= y < V(g) ==>
      h.m[x][y] == (g.m[x][y] || (x == v && y == w) || (x == w && y == v))
    ensures Inv(g) ==> Inv(h)
  {
    SetCell(SetCell(g, v, w), w, v)
  }

  /** `read_edges`: one `addEdge` per pair, in input order. */
  function ReadEdges(g: Graph, P: seq<Edge>): (h: Graph)
    requires Square(g)
    requires PairsInRange(P, V(g))
    ensures V(h) == V(g) && Square(h)
    ensures Inv(g) ==> Inv(h)
    decreases |P|
  {
    if P == [] then g
    else
      assert forall k :: 0 <= k < |P| - 1 ==> P[1..][k] == P[k + 1];
      ReadEdges(AddEdge(g, P[0].v, P[0].w), P[1..])
  }

  /** The stream constructor on well-formed input: a `t[0]` by `t[0]` matrix, all `false`, then the input pairs. */
  function FromInput(t: seq<nat>): (g: Graph)
    requires WellFormedInput(t)
    ensures V(g) == t[0] && Inv(g)
  {
    ReadEdges(New(t[0]), InputPairs(t))
  }

  /** The neighbour lists of all vertices, in vertex order: the rows `toString` prints, each the joined vertices in
      ascending order. */
  function Rows(g: Graph): (r: seq<seq<nat>>)
    ensures |r| == V(g)
    ensures forall v, w :: 0 <= v < V(g) ==> (w in r[v] <==> 0 <= w < |g.m[v]| && g.m[v][w])
    ensures forall v :: 0 <= v < V(g) ==> StrictlyIncreasing(r[v])
  {
    var r := seq(V(g), v requires 0 <= v < V(g) => Neighbors(g, v));
    assert forall v :: 0 <= v < V(g) ==>
             StrictlyIncreasing(r[v]) && forall w :: w in r[v] <==> 0 <= w < |g.m[v]| && g.m[v][w] by {
      forall v | 0 <= v < V(g) {
        TrueIndicesMembers(g.m[v], 0);
      }
    }
    r
  }

  /** `toInputString` as written: the vertex count, the edge count, then the pairs of every row. */
  function InputString(g: Graph): seq<nat>
    requires Square(g)
  {
    InputText(V(g), E(g), Serialize(Rows(g), 0, false))
  }

  /** `toInputString` with the self-loop toggle removed: every neighbour at or above the row's vertex is written. */
  function InputStringFixed(g: Graph): seq<nat>
    requires Square(g)
  {
    InputText(V(g), E(g), Serialize(Rows(g), 0, true))
  }

  /** Some vertex has a self-loop. */
  predicate HasSelfLoop(g: Graph)
    requires Square(g)
  {
    exists v :: 0 <= v < V(g) && g.m[v][v]
  }

  /** The pairs `p` and `q` name the same undirected edge. */
  predicate SameEdge(p: Edge, q: Edge)
  {
    (p.v == q.v && p.w == q.w) || (p.v == q.w && p.w == q.v)
  }

  /** Some pair of `P` names the undirected edge `x y`. */
  predicate Named(P: seq<Edge>, x: nat, y: nat)
  {
    exists k :: 0 <= k < |P| && SameEdge(P[k], Edge(x, y))
  }

  /** The pairs of `P` that name an edge an earlier pair already named. */
  function Repeats(P: seq<Edge>): nat
    decreases |P|
  {
    if P == [] then 0
    else
      var init := P[..|P| - 1];
      Repeats(init) + (if Named(init, P[|P| - 1].v, P[|P| - 1].w) then 1 else 0)
  }

  /** A matrix with no set cell has no edge. */
  lemma {:induction false} NoCellsNoEdges(g: Graph, r: nat)
    requires Square(g)
    requires r <= V(g)
    requires forall v, w :: 0 <= v < V(g) && 0 <= w < V(g) ==> !g.m[v][w]
    ensures UpperFrom(g, r) == 0
    decreases V(g) - r
  {
    if r < V(g) {
      NoCellsNoEdges(g, r + 1);
      CountTrueNone(g.m[r][r..]);
    }
  }

  // ----- neighbours and degree -----

  /** The neighbour list holds exactly the set columns from `from` on, each once, in ascending order. */
  lemma {:induction false} TrueIndicesMembers(row: seq<bool>, from: nat)
    ensures forall w :: w in TrueIndices(row, from) <==> from <= w < |row| && row[w]
    ensures StrictlyIncreasing(TrueIndices(row, from))
    decreases |row| - from
  {
    if from < |row| {
      TrueIndicesMembers(row, from + 1);
      var hd: seq<nat> := if row[from] then [from] else [];
      var rest := TrueIndices(row, from + 1);
      var r := hd + rest;
      assert TrueIndices(row, from) == r;
      forall w
        ensures w in r <==> from <= w < |row| && row[w]
      {
        assert w in r <==> w in hd || w in rest;
      }
      forall i, j | 0 <= i < j < |r|
        ensures r[i] < r[j]
      {
        if i < |hd| {
          assert r[j] == rest[j - |hd|];
          assert r[j] in rest;
        } else {
          assert r[i] == rest[i - |hd|] && r[j] == rest[j - |hd|];
        }
      }
    }
  }

  /** The neighbour list from column `from` on is as long as the set cells from there. */
  lemma {:induction false} TrueIndicesLength(row: seq<bool>, from: nat)
    requires from <= |row|
    ensures |TrueIndices(row, from)| == CountTrue(row[from..])
    decreases |row| - from
  {
    if from < |row| {
      TrueIndicesLength(row, from + 1);
      assert row[from..][1..] == row[from + 1..];
    }
  }

  /** Dropping the neighbours below `i` leaves the set columns from `i` on. */
  lemma {:induction false} TrueIndicesAtLeast(row: seq<bool>, from: nat, i: nat)
    requires from <= i
    ensures AtLeast(TrueIndices(row, from), i) == TrueIndices(row, i)
    decreases |row| - from
  {
    if from >= |row| {
    } else if from == i {
      TrueIndicesMembers(row, i);
      var r := TrueIndices(row, i);
      assert forall k :: 0 <= k < |r| ==> r[k] in r;
      AtLeastAll(r, i);
    } else {
      TrueIndicesAtLeast(row, from + 1, i);
      AtLeastAppend(if row[from] then [from] else [], TrueIndices(row, from + 1), i);
    }
  }

  /** `verticesAdjacentTo(v)` lists `w` exactly when `v` and `w` are joined, once, in ascending order, and `degree`
      is its length plus one for a self-loop. */
  lemma NeighborsSpec(g: Graph, v: nat)
    requires Square(g)
    requires v < V(g)
    ensures forall w :: w in Neighbors(g, v) <==> 0 <= w < V(g) && g.m[v][w]
    ensures StrictlyIncreasing(Neighbors(g, v))
    ensures Degree(g, v) == |Neighbors(g, v)| + (if v in Neighbors(g, v) then 1 else 0)
  {
    TrueIndicesMembers(g.m[v], 0);
    TrueIndicesLength(g.m[v], 0);
    assert g.m[v][0..] == g.m[v];
  }

  // ----- the edge count -----

  /** Setting cell `c` changes the set cells from column `r` on only when `c` is one of those columns. */
  lemma CountTrueSetFrom(row: seq<bool>, c: nat, r: nat)
    requires c < |row| && r <= |row|
    ensures CountTrue(row[c := true][r..]) == CountTrue(row[r..]) + (if r <= c && !row[c] then 1 else 0)
  {
    if r <= c {
      assert row[c := true][r..] == row[r..][c - r := true];
      CountTrueSet(row[r..], c - r);
    } else {
      assert row[c := true][r..] == row[r..];
    }
  }

  /** Setting cell `r c` adds one edge exactly when it lies on or above the diagonal and was clear. */
  lemma {:induction false} SetCellUpper(g: Graph, r: nat, c: nat, from: nat)
    requires Square(g)
    requires r < V(g) && c < V(g) && from <= V(g)
    ensures UpperFrom(SetCell(g, r, c), from) ==
            UpperFrom(g, from) + (if from <= r && r <= c && !g.m[r][c] then 1 else 0)
    decreases V(g) - from
  {
    var h := SetCell(g, r, c);
    if from < V(g) {
      SetCellUpper(g, r, c, from + 1);
      if from == r {
        CountTrueSetFrom(g.m[r], c, r);
      }
    }
  }

  /** `addEdge(v, w)` adds one edge exactly when `v` and `w` were not joined yet. */
  lemma AddEdgeCount(g: Graph, v: nat, w: nat)
    requires Inv(g)
    requires v < V(g) && w < V(g)
    ensures E(AddEdge(g, v, w)) == E(g) + (if g.m[v][w] then 0 else 1)
  {
    var h := SetCell(g, v, w);
    SetCellUpper(g, v, w, 0);
    SetCellUpper(h, w, v, 0);
  }

  /** Adding the same edge twice is the same as adding it once. */
  lemma AddEdgeIdempotent(g: Graph, v: nat, w: nat)
    requires Square(g)
    requires v < V(g) && w < V(g)
    ensures AddEdge(AddEdge(g, v, w), v, w) == AddEdge(g, v, w)
  {
    var h := AddEdge(g, v, w);
    var h2 := AddEdge(h, v, w);
    assert forall x :: 0 <= x < V(g) ==> h2.m[x] == h.m[x];
  }

  // ----- reading edges -----

  /** After reading `P`, `x` and `y` are joined exactly when they were before or some pair names them. */
  lemma {:induction false} ReadEdgesCells(g: Graph, P: seq<Edge>, x: nat, y: nat)
    requires Square(g)
    requires PairsInRange(P, V(g))
    requires x < V(g) && y < V(g)
    ensures ReadEdges(g, P).m[x][y] <==> g.m[x][y] || Named(P, x, y)
    decreases |P|
  {
    if P != [] {
      assert forall k :: 0 <= k < |P| - 1 ==> P[1..][k] == P[k + 1];
      var h := AddEdge(g, P[0].v, P[0].w);
      ReadEdgesCells(h, P[1..], x, y);
      if Named(P[1..], x, y) {
        var k :| 0 <= k < |P[1..]| && SameEdge(P[1..][k], Edge(x, y));
        assert SameEdge(P[k + 1], Edge(x, y));
      }
      if Named(P, x, y) && !SameEdge(P[0], Edge(x, y)) {
        var k :| 0 <= k < |P| && SameEdge(P[k], Edge(x, y));
        assert P[1..][k - 1] == P[k];
      }
    }
  }

  /** Reading `P + [p]` is reading `P`, then adding `p`. */
  lemma {:induction false} ReadEdgesSnoc(g: Graph, P: seq<Edge>, p: Edge)
    requires Square(g)
    requires PairsInRange(P, V(g)) && p.v < V(g) && p.w < V(g)
    ensures PairsInRange(P + [p], V(g))
    ensures ReadEdges(g, P + [p]) == AddEdge(ReadEdges(g, P), p.v, p.w)
    decreases |P|
  {
    assert forall k :: 0 <= k < |P| ==> (P + [p])[k] == P[k];
    assert (P + [p])[|P|] == p;
    if P != [] {
      assert (P + [p])[1..] == P[1..] + [p];
      assert forall k :: 0 <= k < |P| - 1 ==> P[1..][k] == P[k + 1];
      ReadEdgesSnoc(AddEdge(g, P[0].v, P[0].w), P[1..], p);
    } else {
      assert ReadEdges(AddEdge(g, p.v, p.w), []) == AddEdge(g, p.v, p.w);
    }
  }

  /** Reading pairs into an empty matrix gives one edge per pair that names a new edge: the pairs count the edges
      plus the repeats. */
  lemma {:induction false} ReadEdgesCount(n: nat, P: seq<Edge>)
    requires PairsInRange(P, n)
    ensures E(ReadEdges(New(n), P)) + Repeats(P) == |P|
    decreases |P|
  {
    if P != [] {
      var init := P[..|P| - 1];
      var p := P[|P| - 1];
      assert P == init + [p];
      assert p.v < n && p.w < n;
      assert PairsInRange(init, n) by {
        assert forall k :: 0 <= k < |init| ==> init[k] == P[k];
      }
      ReadEdgesSnoc(New(n), init, p);
      ReadEdgesCount(n, init);
      var h := ReadEdges(New(n), init);
      assert ReadEdges(New(n), P) == AddEdge(h, p.v, p.w);
      AddEdgeCount(h, p.v, p.w);
      ReadEdgesCells(New(n), init, p.v, p.w);
      assert h.m[p.v][p.w] <==> Named(init, p.v, p.w);
      assert Repeats(P) == Repeats(init) + (if Named(init, p.v, p.w) then 1 else 0);
    }
  }

  /** No pair repeats an earlier pair's edge exactly when no two pairs name the same undirected edge. */
  lemma {:induction false} NoRepeats(P: seq<Edge>)
    ensures Repeats(P) == 0 <==> forall j, k :: 0 <= j < k < |P| ==> !SameEdge(P[j], P[k])
    decreases |P|
  {
    if P != [] {
      var init := P[..|P| - 1];
      var p := P[|P| - 1];
      NoRepeats(init);
      if Repeats(P) == 0 {
        forall j, k | 0 <= j < k < |P|
          ensures !SameEdge(P[j], P[k])
        {
          if k == |P| - 1 {
            assert init[j] == P[j];
          } else {
            assert init[j] == P[j] && init[k] == P[k];
          }
        }
      } else if Named(init, p.v, p.w) {
        var j :| 0 <= j < |init| && SameEdge(init[j], Edge(p.v, p.w));
        assert P[j] == init[j];
        assert SameEdge(P[j], P[|P| - 1]);
      } else {
        var j, k :| 0 <= j < k < |init| && SameEdge(init[j], init[k]);
        assert P[j] == init[j] && P[k] == init[k];
      }
    }
  }

  /** The matrix read from text joins `x` and `y` exactly when some input pair names them. */
  lemma FromInputCells(t: seq<nat>, x: nat, y: nat)
    requires WellFormedInput(t)
    requires x < t[0] && y < t[0]
    ensures FromInput(t).m[x][y] <==> Named(InputPairs(t), x, y)
  {
    ReadEdgesCells(New(t[0]), InputPairs(t), x, y);
  }

  /** The stream constructor stores a repeated edge once: the graph has as many edges as the header announces
      exactly when no two input pairs name the same edge, and fewer otherwise. */
  lemma FromInputCount(t: seq<nat>)
    requires WellFormedInput(t)
    ensures E(FromInput(t)) + Repeats(InputPairs(t)) == t[1]
    ensures E(FromInput(t)) == t[1] <==>
            forall j, k :: 0 <= j < k < t[1] ==> !SameEdge(InputPairs(t)[j], InputPairs(t)[k])
  {
    ReadEdgesCount(t[0], InputPairs(t));
    NoRepeats(InputPairs(t));
  }

  // ----- writing the graph back -----

  /** The fixed emission writes one pair per edge. */
  lemma {:induction false} FixedLength(g: Graph, i: nat)
    requires Square(g)
    requires i <= V(g)
    ensures |Serialize(Rows(g), i, true)| == UpperFrom(g, i)
    decreases V(g) - i
  {
    if i < V(g) {
      FixedLength(g, i + 1);
      TrueIndicesAtLeast(g.m[i], 0, i);
      TrueIndicesLength(g.m[i], i);
    }
  }

  /** The fixed emission holds the pair `a b` once when `a <= b` are joined, and no other pair. */
  lemma FixedPairCount(g: Graph, a: nat, b: nat)
    requires Square(g)
    ensures PairCount(Serialize(Rows(g), 0, true), a, b) ==
            if a < V(g) && a <= b && b < V(g) && g.m[a][b] then 1 else 0
  {
    SerializeCount(Rows(g), 0, true, a, b);
    if a < V(g) {
      NeighborsSpec(g, a);
      if b in Neighbors(g, a) {
        NoDupCounts(Neighbors(g, a));
      }
    }
  }

  /** A target written in the row of `a` is a vertex joined to `a`. */
  lemma TargetJoined(g: Graph, a: nat, b: nat, fixed: bool)
    requires Square(g)
    requires a < V(g)
    requires Count(Targets(Rows(g)[a], a, fixed), b) > 0
    ensures b < V(g) && g.m[a][b]
  {
    if !fixed {
      WrittenTargetsCount(Rows(g)[a], a, false, b);
    }
    assert Count(Rows(g)[a], b) > 0;
    assert b in Rows(g)[a];
  }

  /** Every pair either emission writes names vertices of the graph. */
  lemma SerializedInRange(g: Graph, fixed: bool)
    requires Square(g)
    ensures PairsInRange(Serialize(Rows(g), 0, fixed), V(g))
  {
    var P := Serialize(Rows(g), 0, fixed);
    forall k | 0 <= k < |P|
      ensures P[k].v < V(g) && P[k].w < V(g)
    {
      var a, b := P[k].v, P[k].w;
      assert P[k] in multiset(P);
      SerializeCount(Rows(g), 0, fixed, a, b);
      TargetJoined(g, a, b, fixed);
    }
  }

  /** The fixed emission names the edge `x y` exactly when `x` and `y` are joined. */
  lemma FixedNamed(g: Graph, x: nat, y: nat)
    requires Inv(g)
    requires x < V(g) && y < V(g)
    ensures Named(Serialize(Rows(g), 0, true), x, y) <==> g.m[x][y]
  {
    var P := Serialize(Rows(g), 0, true);
    FixedPairCount(g, x, y);
    FixedPairCount(g, y, x);
    NamedByCount(P, x, y);
  }

  /** A sequence of pairs names the edge `x y` exactly when it holds the pair in one orientation or the other. */
  lemma NamedByCount(P: seq<Edge>, x: nat, y: nat)
    ensures Named(P, x, y) <==> PairCount(P, x, y) + PairCount(P, y, x) > 0
  {
    if Named(P, x, y) {
      var k :| 0 <= k < |P| && SameEdge(P[k], Edge(x, y));
      assert P[k] in multiset(P);
      assert PairCount(P, P[k].v, P[k].w) > 0;
    }
    if PairCount(P, x, y) > 0 {
      assert Edge(x, y) in multiset(P);
      var k :| 0 <= k < |P| && P[k] == Edge(x, y);
      assert SameEdge(P[k], Edge(x, y));
    } else if PairCount(P, y, x) > 0 {
      assert Edge(y, x) in multiset(P);
      var k :| 0 <= k < |P| && P[k] == Edge(y, x);
      assert SameEdge(P[k], Edge(x, y));
    }
  }

  /** The fixed `toInputString` always reads back to the very same matrix. */
  lemma InputStringFixedRoundTrip(g: Graph)
    requires Inv(g)
    ensures WellFormedInput(InputStringFixed(g))
    ensures FromInput(InputStringFixed(g)) == g
    ensures |Serialize(Rows(g), 0, true)| == E(g)
  {
    var P := Serialize(Rows(g), 0, true);
    var t := InputStringFixed(g);
    FixedLength(g, 0);
    SerializedInRange(g, true);
    InputTextReadBack(V(g), E(g), P);
    var h := FromInput(t);
    assert InputPairs(t) == P;
    forall x, y | 0 <= x < V(g) && 0 <= y < V(g)
      ensures h.m[x][y] == g.m[x][y]
    {
      FromInputCells(t, x, y);
      FixedNamed(g, x, y);
    }
    assert forall x :: 0 <= x < V(g) ==> h.m[x] == g.m[x];
  }

  /** `toInputString` as written reads back exactly when no vertex has a self-loop, and then it is the fixed
      emission: the single neighbour entry of a self-loop is skipped by the toggle, while the header counts it. */
  lemma InputStringRoundTrip(g: Graph)
    requires Inv(g)
    ensures WellFormedInput(InputString(g)) <==> !HasSelfLoop(g)
    ensures !HasSelfLoop(g) ==> InputString(g) == InputStringFixed(g)
  {
    var rows := Rows(g);
    SerializeWrittenVsFixed(rows, 0);
    InputStringFixedRoundTrip(g);
    if HasSelfLoop(g) {
      var v :| 0 <= v < V(g) && g.m[v][v];
      assert v in rows[v];
      SerializedInRange(g, false);
      InputTextReadBack(V(g), E(g), Serialize(rows, 0, false));
    }
  }

  /** The fixed emission lists the edges in strictly ascending order: by first vertex, then by second. */
  lemma InputStringSorted(g: Graph)
    requires Square(g)
    ensures forall k, l :: 0 <= k < l < |Serialize(Rows(g), 0, true)| ==>
      var p, q := Serialize(Rows(g), 0, true)[k], Serialize(Rows(g), 0, true)[l];
      p.v < q.v || (p.v == q.v && p.w < q.w)
  {
    forall a | 0 <= a < V(g)
      ensures StrictlyIncreasing(Targets(Rows(g)[a], a, true))
    {
      NeighborsSpec(g, a);
      SubsequenceIncreasing(AtLeast(Rows(g)[a], a), Rows(g)[a]);
    }
    SerializeSorted(Rows(g), 0);
  }

  /** A single vertex with a self-loop: `toInputString` announces one edge and writes no pair, so its text cannot
      be read back, while the fixed emission writes the pair `0 0`. */
  lemma SelfLoopDropped()
    ensures InputString(AddEdge(New(1), 0, 0)) == [1, 1]
    ensures !WellFormedInput(InputString(AddEdge(New(1), 0, 0)))
    ensures InputStringFixed(AddEdge(New(1), 0, 0)) == [1, 1, 0, 0]
  {
    var g := AddEdge(New(1), 0, 0);
    assert g.m[0][0] && |g.m| == 1 && |g.m[0]| == 1;
    assert g.m[0] == [true];
    assert g.m == [[true]];
    assert TrueIndices([true], 1) == [];
    assert Neighbors(g, 0) == [0];
    assert Rows(g) == [[0]];
    assert E(g) == 1 by {
      assert g.m[0][0..] == [true];
      assert UpperFrom(g, 1) == 0;
    }
    assert WrittenTargets([0], 0, false) == [];
    assert Serialize(Rows(g), 0, false) == [];
    assert AtLeast([0], 0) == [0];
    assert Serialize(Rows(g), 0, true) == [Edge(0, 0)];
  }
}
