/** `ConnectedComponents`: label every vertex with the index of its connected component. The constructor visits
    the vertices in increasing order and starts a search from each one no earlier search marked; that vertex is the
    root of a new component, and everything its search marks gets the component's index. */
module ConnectedComponents {
  import opened Seqs
  import opened AbstractUGraph
  import ALUGraph
  import DepthFirstSearch

  /** `connected(a, b)`: `a` and `b` carry the same component index. */
  predicate Connected(ids: seq<nat>, a: nat, b: nat)
    requires a < |ids| && b < |ids|
  {
    ids[a] == ids[b]
  }

  // ----- as written -----

  /** The constructor as written. Its per-root search marks the root and labels it, then looks at the root's
      neighbours but tests the root's own mark, which it has just set, so it never follows an edge: each vertex
      becomes a component of its own. */
  method ComponentsAsWritten(g: Graph) returns (ids: seq<nat>, count: nat)
    ensures |ids| == V(g) && count == V(g)
    ensures forall v :: 0 <= v < V(g) ==> ids[v] == v
  {
    var marks := seq(V(g), _ => false);
    ids := seq(V(g), _ => 0);
    count := 0;
    var source := 0;
    while source < V(g)
      invariant source <= V(g) && |marks| == |ids| == V(g)
      invariant count == source
      invariant forall v :: 0 <= v < V(g) ==> (marks[v] <==> v < source)
      invariant forall v :: 0 <= v < source ==> ids[v] == v
    {
      if !marks[source] {
        marks := marks[source := true];
        ids := ids[source := count];
        count := count + 1;
      }
      source := source + 1;
    }
  }

  /** Two vertices joined by one edge. */
  function Joined(): (g: Graph)
    ensures Valid(g) && V(g) == 2
    ensures 1 in Neighbors(g, 0)
  {
    var al := ALUGraph.AddEdge(ALUGraph.New(2), 0, 1);
    ALUGraph.AddEdgeNeighbors(ALUGraph.New(2), 0, 1, 0, 1);
    List(al)
  }

  /** On two joined vertices the constructor as written reports them as not connected and counts two components,
      although each reaches the other. */
  method AsWrittenSplitsEdge() returns (ids: seq<nat>, count: nat)
    ensures |ids| == 2 && Reachable(Joined(), 0, 1)
    ensures !Connected(ids, 0, 1) && count == 2
  {
    ids, count := ComponentsAsWritten(Joined());
    ReachableSelf(Joined(), 0);
    ReachableStep(Joined(), 0, 0, 1);
  }

  // ----- corrected -----

  /** Component `k` has root `roots[k]`, the roots increase, and each root carries its own index. */
  predicate RootsLabelled(marks: seq<bool>, ids: seq<nat>, roots: seq<nat>, source: nat)
  {
    && |marks| == |ids| && source <= |ids| && |roots| <= source
    && StrictlyIncreasing(roots)
    && (forall k :: 0 <= k < |roots| ==> roots[k] < source && ids[roots[k]] == k)
    && (forall v :: 0 <= v < source ==> marks[v])
  }

  /** Every marked vertex is reachable from the root its index names. */
  ghost predicate MarksSound(g: Graph, marks: seq<bool>, ids: seq<nat>, roots: seq<nat>)
    requires |marks| == |ids| == V(g)
  {
    forall v :: 0 <= v < V(g) && marks[v] ==> ids[v] < |roots| && Reachable(g, roots[ids[v]], v)
  }

  /** Every vertex reachable from a root is marked with the root's index, and is no smaller than the root. */
  ghost predicate MarksComplete(g: Graph, marks: seq<bool>, ids: seq<nat>, roots: seq<nat>)
    requires |marks| == |ids| == V(g)
  {
    forall k, v :: 0 <= k < |roots| && 0 <= v < V(g) && Reachable(g, roots[k], v) ==>
      marks[v] && ids[v] == k && roots[k] <= v
  }

  /** What the constructor keeps true after handling the vertices below `source`: `roots[k]` is the root of
      component `k`, the smallest vertex of that component; every vertex reachable from a root is marked with its
      index, and every marked vertex is reachable from the root its index names. */
  ghost predicate Labelled(g: Graph, marks: seq<bool>, ids: seq<nat>, roots: seq<nat>, source: nat)
  {
    && |marks| == |ids| == V(g)
    && RootsLabelled(marks, ids, roots, source)
    && MarksSound(g, marks, ids, roots)
    && MarksComplete(g, marks, ids, roots)
  }

  /** A vertex no earlier search marked is not reachable from any earlier root, nor from any smaller vertex. */
  lemma FreshRoot(g: Graph, marks: seq<bool>, ids: seq<nat>, roots: seq<nat>, source: nat, v: nat)
    requires Valid(g) && |marks| == |ids| == V(g)
    requires MarksSound(g, marks, ids, roots) && MarksComplete(g, marks, ids, roots)
    requires source < V(g) && !marks[source] && forall u :: 0 <= u < source ==> marks[u]
    requires v < V(g) && Reachable(g, source, v)
    ensures !marks[v] && source <= v
  {
    if marks[v] {
      var k := ids[v];
      assert Reachable(g, roots[k], v);
      ReachableSymmetric(g, source, v);
      ReachableTrans(g, roots[k], v, source);
    }
  }

  /** The marks and labels after the search from `source` marked `found`. */
  function Label(marks: seq<bool>, ids: seq<nat>, found: seq<bool>, k: nat): (r: (seq<bool>, seq<nat>))
    requires |marks| == |ids| == |found|
    ensures |r.0| == |r.1| == |marks|
    ensures forall v :: 0 <= v < |marks| ==> r.0[v] == (marks[v] || found[v])
    ensures forall v :: 0 <= v < |marks| ==> r.1[v] == if found[v] then k else ids[v]
  {
    (seq(|marks|, v requires 0 <= v < |marks| => marks[v] || found[v]),
     seq(|marks|, v requires 0 <= v < |marks| => if found[v] then k else ids[v]))
  }

  /** Labelling what the search from an unmarked `source` found as a new component keeps `Labelled`. */
  lemma NewComponent(g: Graph, marks: seq<bool>, ids: seq<nat>, roots: seq<nat>, source: nat, found: seq<bool>)
    requires Valid(g) && Labelled(g, marks, ids, roots, source)
    requires source < V(g) && !marks[source]
    requires |found| == V(g) && forall v :: 0 <= v < V(g) ==> (found[v] <==> Reachable(g, source, v))
    ensures var r := Label(marks, ids, found, |roots|);
            Labelled(g, r.0, r.1, roots + [source], source + 1)
  {
    var r := Label(marks, ids, found, |roots|);
    forall v | 0 <= v < V(g) && found[v]
      ensures !marks[v] && source <= v
    {
      FreshRoot(g, marks, ids, roots, source, v);
    }
    ReachableSelf(g, source);
    NewRoots(marks, ids, roots, source, found);
    NewSound(g, marks, ids, roots, source, found);
    NewComplete(g, marks, ids, roots, source, found);
  }

  lemma NewRoots(marks: seq<bool>, ids: seq<nat>, roots: seq<nat>, source: nat, found: seq<bool>)
    requires RootsLabelled(marks, ids, roots, source)
    requires source < |marks| == |found| && !marks[source] && found[source]
    requires forall v :: 0 <= v < |found| && found[v] ==> !marks[v] && source <= v
    ensures var r := Label(marks, ids, found, |roots|);
            RootsLabelled(r.0, r.1, roots + [source], source + 1)
  {
    var r := Label(marks, ids, found, |roots|);
    var roots' := roots + [source];
    forall k | 0 <= k < |roots'|
      ensures roots'[k] < source + 1 && r.1[roots'[k]] == k
    {
      if k < |roots| {
        assert roots'[k] == roots[k];
        assert marks[roots[k]];
      }
    }
  }

  lemma NewSound(g: Graph, marks: seq<bool>, ids: seq<nat>, roots: seq<nat>, source: nat, found: seq<bool>)
    requires |marks| == |ids| == |found| == V(g)
    requires MarksSound(g, marks, ids, roots)
    requires forall v :: 0 <= v < V(g) ==> (found[v] <==> Reachable(g, source, v))
    ensures var r := Label(marks, ids, found, |roots|);
            MarksSound(g, r.0, r.1, roots + [source])
  {
    var r := Label(marks, ids, found, |roots|);
    var roots' := roots + [source];
    forall v | 0 <= v < V(g) && r.0[v]
      ensures r.1[v] < |roots'| && Reachable(g, roots'[r.1[v]], v)
    {
      if !found[v] {
        assert roots'[ids[v]] == roots[ids[v]];
      }
    }
  }

  lemma NewComplete(g: Graph, marks: seq<bool>, ids: seq<nat>, roots: seq<nat>, source: nat, found: seq<bool>)
    requires |marks| == |ids| == |found| == V(g)
    requires MarksComplete(g, marks, ids, roots)
    requires forall v :: 0 <= v < V(g) ==> (found[v] <==> Reachable(g, source, v))
    requires forall v :: 0 <= v < V(g) && found[v] ==> !marks[v] && source <= v
    ensures var r := Label(marks, ids, found, |roots|);
            MarksComplete(g, r.0, r.1, roots + [source])
  {
    var r := Label(marks, ids, found, |roots|);
    var roots' := roots + [source];
    forall k, v | 0 <= k < |roots'| && 0 <= v < V(g) && Reachable(g, roots'[k], v)
      ensures r.0[v] && r.1[v] == k && roots'[k] <= v
    {
      if k < |roots| {
        assert roots'[k] == roots[k];
        assert marks[v] && ids[v] == k;
      }
    }
  }

  /** A vertex an earlier search marked starts no component. */
  lemma AlreadyLabelled(g: Graph, marks: seq<bool>, ids: seq<nat>, roots: seq<nat>, source: nat)
    requires Labelled(g, marks, ids, roots, source)
    requires source < V(g) && marks[source]
    ensures Labelled(g, marks, ids, roots, source + 1)
  {
    SkipRoot(marks, ids, roots, source);
  }

  lemma SkipRoot(marks: seq<bool>, ids: seq<nat>, roots: seq<nat>, source: nat)
    requires RootsLabelled(marks, ids, roots, source)
    requires source < |marks| && marks[source]
    ensures RootsLabelled(marks, ids, roots, source + 1)
  {
    assert forall v :: 0 <= v < source + 1 ==> marks[v];
  }

  /** Once every vertex is handled, equal labels mean mutual reachability, and the roots are the least vertices
      of their components. */
  lemma Finished(g: Graph, marks: seq<bool>, ids: seq<nat>, roots: seq<nat>)
    requires Valid(g) && Labelled(g, marks, ids, roots, V(g))
    ensures |ids| == V(g) && |roots| <= V(g)
    ensures forall a, b :: 0 <= a < V(g) && 0 <= b < V(g) ==> (Connected(ids, a, b) <==> Reachable(g, a, b))
    ensures forall v :: 0 <= v < V(g) ==> ids[v] < |roots|
    ensures StrictlyIncreasing(roots)
    ensures forall k :: 0 <= k < |roots| ==> roots[k] < V(g) && ids[roots[k]] == k
    ensures forall k, v :: 0 <= k < |roots| && 0 <= v < V(g) && Reachable(g, roots[k], v) ==> roots[k] <= v
  {
    forall a, b | 0 <= a < V(g) && 0 <= b < V(g)
      ensures Connected(ids, a, b) <==> Reachable(g, a, b)
    {
      assert marks[a] && marks[b];
      var ra := roots[ids[a]];
      if Connected(ids, a, b) {
        ReachableSymmetric(g, ra, a);
        ReachableTrans(g, a, ra, b);
      }
      if Reachable(g, a, b) {
        ReachableTrans(g, ra, a, b);
      }
    }
  }

  /** The constructor with a search that follows edges. `ids[v]` is `id(v)` and `count` is `count()`; `roots`
      lists the vertex each component's search started from. Two vertices get the same index exactly when one
      reaches the other; the indices are `0 .. count - 1`, component `k` being the one whose least vertex is
      `roots[k]`. */
  method Components(g: Graph) returns (ids: seq<nat>, count: nat, roots: seq<nat>)
    requires Valid(g)
    ensures |ids| == V(g) && count <= V(g)
    ensures forall a, b :: 0 <= a < V(g) && 0 <= b < V(g) ==> (Connected(ids, a, b) <==> Reachable(g, a, b))
    ensures forall v :: 0 <= v < V(g) ==> ids[v] < count
    ensures |roots| == count && StrictlyIncreasing(roots)
    ensures forall k :: 0 <= k < count ==> roots[k] < V(g) && ids[roots[k]] == k
    ensures forall k, v :: 0 <= k < count && 0 <= v < V(g) && Reachable(g, roots[k], v) ==> roots[k] <= v
  {
    var marks := seq(V(g), _ => false);
    ids := seq(V(g), _ => 0);
    roots := [];
    NothingLabelled(g, marks, ids);
    var source := 0;
    while source < V(g)
      invariant Labelled(g, marks, ids, roots, source)
    {
      marks, ids, roots := Handle(g, marks, ids, roots, source);
      source := source + 1;
    }
    count := |roots|;
    Finished(g, marks, ids, roots);
  }

  /** Before any vertex is handled nothing is marked and there are no components. */
  lemma NothingLabelled(g: Graph, marks: seq<bool>, ids: seq<nat>)
    requires |marks| == |ids| == V(g)
    requires forall v :: 0 <= v < V(g) ==> !marks[v]
    ensures Labelled(g, marks, ids, [], 0)
  {
  }

  /** One round of the constructor's loop: a vertex no earlier search marked starts a new component, labelled
      with everything a depth-first search from it marks; a marked vertex is skipped. */
  method Handle(g: Graph, marks: seq<bool>, ids: seq<nat>, roots: seq<nat>, source: nat)
    returns (marks': seq<bool>, ids': seq<nat>, roots': seq<nat>)
    requires Valid(g) && Labelled(g, marks, ids, roots, source) && source < V(g)
    ensures Labelled(g, marks', ids', roots', source + 1)
    ensures roots' == if marks[source] then roots else roots + [source]
  {
    if !marks[source] {
      var found, _, _ := DepthFirstSearch.Search(g, source);
      NewComponent(g, marks, ids, roots, source, found);
      var labelled := Label(marks, ids, found, |roots|);
      marks', ids', roots' := labelled.0, labelled.1, roots + [source];
    } else {
      AlreadyLabelled(g, marks, ids, roots, source);
      marks', ids', roots' := marks, ids, roots;
    }
  }

  /** With the corrected constructor the two joined vertices are one component. */
  method CorrectedJoinsEdge() returns (ids: seq<nat>, count: nat)
    ensures |ids| == 2 && Connected(ids, 0, 1) && count == 1
  {
    var roots;
    ids, count, roots := Components(Joined());
    ReachableSelf(Joined(), 0);
    ReachableStep(Joined(), 0, 0, 1);
    OneLabel(ids, roots, count);
  }

  /** When both vertices carry the same label, only one root was labelled. */
  lemma OneLabel(ids: seq<nat>, roots: seq<nat>, count: nat)
    requires |ids| == 2 && ids[0] == ids[1] && ids[0] < count
    requires |roots| == count && forall k :: 0 <= k < count ==> roots[k] < 2 && ids[roots[k]] == k
    ensures count == 1
  {
    var first, last := roots[0], roots[count - 1];
    assert first < 2 && ids[first] == 0;
    assert last < 2 && ids[last] == count - 1;
  }
}
