/** The storage shared by `ALUGraph` and the older `UndirectedGraph`: one list of neighbour ids per vertex. `addEdge`
    stores an undirected edge once in the list of each endpoint, so a self-loop is stored twice in its vertex's list,
    and the edge count is half the total length of the lists. */
module AdjacencyLists {
  import opened Seqs
  import opened EdgeList

  /** List `v` holds the neighbour ids of vertex `v`, in insertion order. */
  type Lists = seq<seq<nat>>

  /** `n` empty lists, as the size constructors build them. */
  function Empty(n: nat): (r: Lists)
    ensures |r| == n
    ensures forall i :: 0 <= i < n ==> r[i] == []
    ensures TotalLength(r) == 0
  {
    var r := seq(n, _ => []);
    EmptyTotal(r);
    r
  }

  /** Sum of the lengths of all lists. */
  function TotalLength(adj: Lists): nat
  {
    if adj == [] then 0 else |adj[0]| + TotalLength(adj[1..])
  }

  /** The edge count both list stores report: half the total length of the lists. */
  function EdgeCount(adj: Lists): nat
  {
    TotalLength(adj) / 2
  }

  /** Every stored id names a vertex. */
  predicate InRange(adj: Lists)
  {
    forall v, k :: 0 <= v < |adj| && 0 <= k < |adj[v]| ==> adj[v][k] < |adj|
  }

  /** For distinct `v` and `w`, `w` occurs in list `v` exactly as often as `v` occurs in list `w`. */
  predicate Symmetric(adj: Lists)
  {
    forall v, w :: 0 <= v < |adj| && 0 <= w < |adj| && v != w ==> Count(adj[v], w) == Count(adj[w], v)
  }

  /** A self-loop is stored twice, so every vertex occurs an even number of times in its own list. */
  predicate EvenLoops(adj: Lists)
  {
    forall v :: 0 <= v < |adj| ==> Count(adj[v], v) % 2 == 0
  }

  /** What every list store built by the constructors and `addEdge` satisfies. */
  predicate Inv(adj: Lists)
  {
    InRange(adj) && Symmetric(adj) && EvenLoops(adj)
  }

  /** `addEdge(v, w)`: `w` is appended to list `v`, then `v` to list `w`; no other list changes. */
  function Link(adj: Lists, v: nat, w: nat): (r: Lists)
    requires v < |adj| && w < |adj|
    ensures |r| == |adj|
    ensures v != w ==> r[v] == adj[v] + [w] && r[w] == adj[w] + [v]
    ensures v == w ==> r[v] == adj[v] + [v, v]
    ensures forall u :: 0 <= u < |adj| && u != v && u != w ==> r[u] == adj[u]
  {
    var a := adj[v := adj[v] + [w]];
    a[w := a[w] + [v]]
  }

  /** The ids one `addEdge(v, w)` appends to list `x`. */
  function Delta(v: nat, w: nat, x: nat): seq<nat>
  {
    (if v == x then [w] else []) + (if w == x then [v] else [])
  }

  /** The ids appended to list `x` while the pairs `P` are inserted in order. */
  function Contributions(P: seq<Edge>, x: nat): seq<nat>
  {
    if P == [] then [] else Delta(P[0].v, P[0].w, x) + Contributions(P[1..], x)
  }

  /** `read_edges`: the pairs `P` inserted by one `addEdge` call each, in input order. */
  function ReadEdges(adj: Lists, P: seq<Edge>): (r: Lists)
    requires PairsInRange(P, |adj|)
    ensures |r| == |adj|
    decreases |P|
  {
    if P == [] then adj
    else ReadEdges(Link(adj, P[0].v, P[0].w), P[1..])
  }

  // ----- lemmas -----

  lemma {:induction false} EmptyTotal(r: Lists)
    requires forall i :: 0 <= i < |r| ==> r[i] == []
    ensures TotalLength(r) == 0
  {
    if r != [] {
      EmptyTotal(r[1..]);
    }
  }

  /** Replacing one list changes the total length by the difference of the two lengths. */
  lemma {:induction false} TotalLengthUpdate(adj: Lists, i: nat, l: seq<nat>)
    requires i < |adj|
    ensures TotalLength(adj[i := l]) + |adj[i]| == TotalLength(adj) + |l|
  {
    if i > 0 {
      TotalLengthUpdate(adj[1..], i - 1, l);
      assert adj[i := l][1..] == adj[1..][i - 1 := l];
    }
  }

  /** Each `addEdge` adds two entries, so the edge count grows by exactly one, duplicates and self-loops included. */
  lemma LinkTotal(adj: Lists, v: nat, w: nat)
    requires v < |adj| && w < |adj|
    ensures TotalLength(Link(adj, v, w)) == TotalLength(adj) + 2
    ensures EdgeCount(Link(adj, v, w)) == EdgeCount(adj) + 1
  {
    var a := adj[v := adj[v] + [w]];
    TotalLengthUpdate(adj, v, adj[v] + [w]);
    TotalLengthUpdate(a, w, a[w] + [v]);
  }

  /** `addEdge(v, w)` appends `Delta(v, w, x)` to every list `x`. */
  lemma LinkDelta(adj: Lists, v: nat, w: nat, x: nat)
    requires v < |adj| && w < |adj| && x < |adj|
    ensures Link(adj, v, w)[x] == adj[x] + Delta(v, w, x)
  {
  }

  /** `addEdge(v, w)` gives `x` one `y` for the orientation `x y` and one for `y x`. */
  lemma DeltaCount(v: nat, w: nat, x: nat, y: nat)
    ensures Count(Delta(v, w, x), y) == (if v == x && w == y then 1 else 0) + (if w == x && v == y then 1 else 0)
  {
    CountAppend(if v == x then [w] else [], if w == x then [v] else [], y);
  }

  /** Occurrences in list `x` after `addEdge(v, w)`. */
  lemma LinkCount(adj: Lists, v: nat, w: nat, x: nat, y: nat)
    requires v < |adj| && w < |adj| && x < |adj|
    ensures Count(Link(adj, v, w)[x], y) ==
            Count(adj[x], y) + (if v == x && w == y then 1 else 0) + (if w == x && v == y then 1 else 0)
  {
    LinkDelta(adj, v, w, x);
    CountAppend(adj[x], Delta(v, w, x), y);
    DeltaCount(v, w, x, y);
  }

  /** `addEdge` on in-range ids keeps the lists in range, symmetric, and with every vertex occurring an even number of
      times in its own list. */
  lemma LinkInv(adj: Lists, v: nat, w: nat)
    requires v < |adj| && w < |adj|
    requires Inv(adj)
    ensures Inv(Link(adj, v, w))
  {
    LinkInRange(adj, v, w);
    LinkSymmetric(adj, v, w);
    LinkEvenLoops(adj, v, w);
  }

  lemma LinkInRange(adj: Lists, v: nat, w: nat)
    requires v < |adj| && w < |adj| && InRange(adj)
    ensures InRange(Link(adj, v, w))
  {
    var r := Link(adj, v, w);
    forall x, k | 0 <= x < |r| && 0 <= k < |r[x]|
      ensures r[x][k] < |r|
    {
      LinkDelta(adj, v, w, x);
      if k >= |adj[x]| {
        assert r[x][k] in Delta(v, w, x);
      }
    }
  }

  lemma LinkSymmetric(adj: Lists, v: nat, w: nat)
    requires v < |adj| && w < |adj| && Symmetric(adj)
    ensures Symmetric(Link(adj, v, w))
  {
    var r := Link(adj, v, w);
    forall x, y | 0 <= x < |r| && 0 <= y < |r| && x != y
      ensures Count(r[x], y) == Count(r[y], x)
    {
      LinkCount(adj, v, w, x, y);
      LinkCount(adj, v, w, y, x);
    }
  }

  lemma LinkEvenLoops(adj: Lists, v: nat, w: nat)
    requires v < |adj| && w < |adj| && EvenLoops(adj)
    ensures EvenLoops(Link(adj, v, w))
  {
    var r := Link(adj, v, w);
    forall x | 0 <= x < |r|
      ensures Count(r[x], x) % 2 == 0
    {
      LinkCount(adj, v, w, x, x);
    }
  }

  /** After reading `P`, list `x` is its old contents followed by the ids the pairs contribute to it, in input
      order. */
  lemma {:induction false} ReadEdgesLists(adj: Lists, P: seq<Edge>, x: nat)
    requires PairsInRange(P, |adj|)
    requires x < |adj|
    ensures ReadEdges(adj, P)[x] == adj[x] + Contributions(P, x)
    decreases |P|
  {
    if P != [] {
      var a := Link(adj, P[0].v, P[0].w);
      TailInRange(P, |adj|);
      ReadEdgesLists(a, P[1..], x);
      LinkDelta(adj, P[0].v, P[0].w, x);
      var d, c := Delta(P[0].v, P[0].w, x), Contributions(P[1..], x);
      assert ReadEdges(adj, P) == ReadEdges(a, P[1..]);
      assert Contributions(P, x) == d + c;
      Regroup(adj[x], d, c);
    }
  }

  /** Reading `P` adds two entries per pair and keeps the invariant. */
  lemma {:induction false} ReadEdgesTotal(adj: Lists, P: seq<Edge>)
    requires PairsInRange(P, |adj|)
    ensures TotalLength(ReadEdges(adj, P)) == TotalLength(adj) + 2 * |P|
    ensures Inv(adj) ==> Inv(ReadEdges(adj, P))
    decreases |P|
  {
    if P != [] {
      var a := Link(adj, P[0].v, P[0].w);
      TailInRange(P, |adj|);
      ReadEdgesTotal(a, P[1..]);
      LinkTotal(adj, P[0].v, P[0].w);
      if Inv(adj) {
        LinkInv(adj, P[0].v, P[0].w);
      }
    }
  }

  lemma TailInRange(P: seq<Edge>, n: nat)
    requires P != [] && PairsInRange(P, n)
    ensures P[0].v < n && P[0].w < n && PairsInRange(P[1..], n)
  {
    assert forall k :: 0 <= k < |P[1..]| ==> P[1..][k] == P[k + 1];
  }

  /** Vertex `x` receives `y` once per pair `x y` and once per pair `y x`. */
  lemma {:induction false} ContributionsCount(P: seq<Edge>, x: nat, y: nat)
    ensures Count(Contributions(P, x), y) == PairCount(P, x, y) + PairCount(P, y, x)
  {
    if P != [] {
      ContributionsCount(P[1..], x, y);
      CountAppend(Delta(P[0].v, P[0].w, x), Contributions(P[1..], x), y);
      DeltaCount(P[0].v, P[0].w, x, y);
      PairCountCons(P, x, y);
      PairCountCons(P, y, x);
    }
  }

  /** The pairs `a b` of a non-empty sequence: its first pair, if it is one, and those of the rest. */
  lemma PairCountCons(P: seq<Edge>, a: nat, b: nat)
    requires P != []
    ensures PairCount(P, a, b) == (if P[0] == Edge(a, b) then 1 else 0) + PairCount(P[1..], a, b)
  {
    assert P == [P[0]] + P[1..];
    PairCountAppend([P[0]], P[1..], a, b);
  }

  /** Lists with the same contents up to order have the same total length. */
  lemma {:induction false} SameContentsSameTotal(a: Lists, b: Lists)
    requires |a| == |b|
    requires forall v :: 0 <= v < |a| ==> multiset(a[v]) == multiset(b[v])
    ensures TotalLength(a) == TotalLength(b)
  {
    if a != [] {
      assert |a[0]| == |multiset(a[0])| == |multiset(b[0])| == |b[0]|;
      SameContentsSameTotal(a[1..], b[1..]);
    }
  }
}
