/** `SearchMarks`: the bookkeeping both searches share. Each marks a vertex and counts it when it first meets
    it, and remembers it in a work list; here `order` records every vertex in the order it was marked, so the count
    is its length and the work list is a part of it. */
module SearchMarks {
  import opened Seqs
  import opened AbstractUGraph

  /** `marks` has one flag per vertex, and `order` lists the marked vertices, each once. */
  predicate Tracked(g: Graph, marks: seq<bool>, order: seq<nat>)
  {
    && |marks| == V(g)
    && |order| == CountTrue(marks)
    && NoDup(order)
    && (forall i :: 0 <= i < |order| ==> order[i] < V(g))
    && (forall v :: 0 <= v < V(g) ==> (marks[v] <==> v in order))
  }

  /** Only vertices reachable from `s` are marked. */
  ghost predicate Sound(g: Graph, s: nat, marks: seq<bool>)
  {
    forall v :: 0 <= v < |marks| && marks[v] ==> Reachable(g, s, v)
  }

  /** Every neighbour of `v` is marked. */
  predicate Explored(g: Graph, marks: seq<bool>, v: nat)
    requires v < V(g)
  {
    forall w :: w in Neighbors(g, v) ==> w < |marks| && marks[w]
  }

  /** The inner loop of the constructor: mark and enqueue every neighbour of `current` not marked yet. Marks are
      only added, the order only grows at its end, and afterwards `current` is explored. */
  method MarkNeighbors(g: Graph, ghost s: nat, marks: seq<bool>, order: seq<nat>, current: nat)
    returns (marks': seq<bool>, order': seq<nat>)
    requires Valid(g)
    requires Tracked(g, marks, order) && Sound(g, s, marks)
    requires current < V(g) && Reachable(g, s, current)
    ensures Tracked(g, marks', order') && Sound(g, s, marks')
    ensures |order| <= |order'| && order'[..|order|] == order
    ensures forall v :: 0 <= v < V(g) && marks[v] ==> marks'[v]
    ensures Explored(g, marks', current)
  {
    ValidShape(g);
    var adjacent := Neighbors(g, current);
    marks', order' := marks, order;
    var j := 0;
    while j < |adjacent|
      invariant j <= |adjacent|
      invariant Tracked(g, marks', order') && Sound(g, s, marks')
      invariant |order| <= |order'| && order'[..|order|] == order
      invariant forall v :: 0 <= v < V(g) && marks[v] ==> marks'[v]
      invariant forall k :: 0 <= k < j ==> adjacent[k] < |marks'| && marks'[adjacent[k]]
    {
      var w := adjacent[j];
      assert w in adjacent;
      ghost var before := marks';
      if !marks'[w] {
        MarkStep(g, s, marks', order', current, w);
        assert (order' + [w])[..|order|] == order'[..|order|];
        marks' := marks'[w := true];
        order' := order' + [w];
      }
      StillMarked(adjacent, before, marks', j);
      j := j + 1;
    }
  }

  /** Marks are only added, so the neighbours marked before stay marked, and the one just handled is marked. */
  lemma StillMarked(adjacent: seq<nat>, before: seq<bool>, after: seq<bool>, j: nat)
    requires j < |adjacent| && |before| == |after|
    requires forall k :: 0 <= k < j ==> adjacent[k] < |before| && before[adjacent[k]]
    requires forall v :: 0 <= v < |before| && before[v] ==> after[v]
    requires adjacent[j] < |after| && after[adjacent[j]]
    ensures forall k :: 0 <= k < j + 1 ==> adjacent[k] < |after| && after[adjacent[k]]
  {
  }

  /** Marking an unmarked neighbour of a reachable vertex, and listing it last, keeps the bookkeeping. */
  lemma MarkStep(g: Graph, s: nat, marks: seq<bool>, order: seq<nat>, current: nat, w: nat)
    requires Tracked(g, marks, order) && Sound(g, s, marks)
    requires current < V(g) && Reachable(g, s, current)
    requires w < V(g) && w in Neighbors(g, current) && !marks[w]
    ensures Tracked(g, marks[w := true], order + [w]) && Sound(g, s, marks[w := true])
  {
    MarkTracked(g, marks, order, w);
    ReachableStep(g, s, current, w);
  }

  /** Marking an unmarked vertex and listing it last keeps the order listing the marked vertices once each. */
  lemma MarkTracked(g: Graph, marks: seq<bool>, order: seq<nat>, w: nat)
    requires Tracked(g, marks, order)
    requires w < V(g) && !marks[w]
    ensures Tracked(g, marks[w := true], order + [w])
  {
    var m, o := marks[w := true], order + [w];
    CountTrueSet(marks, w);
    assert w !in order;
    forall i, j | 0 <= i < j < |o|
      ensures o[i] != o[j]
    {
      if j < |order| {
        assert o[i] == order[i] && o[j] == order[j];
      } else {
        assert o[i] == order[i] && o[j] == w;
      }
    }
    forall v | 0 <= v < V(g)
      ensures m[v] <==> v in o
    {
      assert (v in o) <==> (v in order || v == w);
    }
  }

  /** The source alone is marked and enqueued. */
  method Start(g: Graph, s: nat) returns (marks: seq<bool>, order: seq<nat>)
    requires s < V(g)
    ensures Tracked(g, marks, order) && Sound(g, s, marks)
    ensures order == [s]
  {
    var none := seq(V(g), _ => false);
    CountTrueNone(none);
    CountTrueSet(none, s);
    marks := none[s := true];
    order := [s];
    ReachableSelf(g, s);
  }

  /** When every listed vertex is explored, the marks hold everything reachable from the source. */
  lemma Complete(g: Graph, s: nat, marks: seq<bool>, order: seq<nat>)
    requires Valid(g) && s < V(g)
    requires Tracked(g, marks, order) && Sound(g, s, marks) && s in order
    requires forall i :: 0 <= i < |order| ==> Explored(g, marks, order[i])
    ensures forall v :: 0 <= v < V(g) ==> (marks[v] <==> Reachable(g, s, v))
    ensures 1 <= |order| <= V(g)
  {
    assert ClosedMarks(g, marks) by {
      forall u, w | 0 <= u < V(g) && marks[u] && w in Neighbors(g, u)
        ensures w < V(g) && marks[w]
      {
        var i :| 0 <= i < |order| && order[i] == u;
        assert Explored(g, marks, order[i]);
      }
    }
    forall v | 0 <= v < V(g) && Reachable(g, s, v)
      ensures marks[v]
    {
      ClosedMarksReach(g, marks, s, v);
    }
  }
}
