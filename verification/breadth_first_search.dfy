/** `BreadthFirstSearch`: the vertices connected to a source, found with a FIFO queue. Since a vertex is
    enqueued exactly when it is marked, the queue is always the tail of the marking order that has not been
    explored yet, from index `head` on. */
module BreadthFirstSearch {
  import opened Seqs
  import opened AbstractUGraph
  import opened SearchMarks

  /** Exploring the vertex at `head` keeps the vertices before it explored: marks are only added and the order
      only grows at its end. */
  lemma StillExplored(g: Graph, marks: seq<bool>, order: seq<nat>, marks': seq<bool>, order': seq<nat>, head: nat)
    requires Tracked(g, marks, order) && Tracked(g, marks', order')
    requires head < |order| <= |order'| && order'[..|order|] == order
    requires forall v :: 0 <= v < V(g) && marks[v] ==> marks'[v]
    requires forall i :: 0 <= i < head ==> Explored(g, marks, order[i])
    requires Explored(g, marks', order[head])
    ensures forall i :: 0 <= i <= head ==> Explored(g, marks', order'[i])
  {
    forall i | 0 <= i <= head
      ensures Explored(g, marks', order'[i])
    {
      assert order'[i] == order'[..|order|][i] == order[i];
      if i < head {
        assert Explored(g, marks, order[i]);
      }
    }
  }

  /** The constructor: `marks[v]` is `marked(v)`, `count` is `count()`, and `order` lists the vertices in the order
      they were enqueued. The marked vertices are exactly those reachable from `s`, each enqueued once, and the
      count is their number. */
  method Search(g: Graph, s: nat) returns (marks: seq<bool>, count: nat, order: seq<nat>)
    requires Valid(g)
    requires s < V(g)
    ensures |marks| == V(g)
    ensures forall v :: 0 <= v < V(g) ==> (marks[v] <==> Reachable(g, s, v))
    ensures count == CountTrue(marks) && 1 <= count <= V(g)
    ensures |order| == count && NoDup(order) && order[0] == s
    ensures forall v :: 0 <= v < V(g) ==> (marks[v] <==> v in order)
  {
    marks, order := Start(g, s);
    var head := 0;
    while head < |order|
      invariant 0 <= head <= |order|
      invariant Tracked(g, marks, order) && Sound(g, s, marks)
      invariant |order| >= 1 && order[0] == s
      invariant forall i :: 0 <= i < head ==> Explored(g, marks, order[i])
      decreases V(g) - head
    {
      var marks', order' := MarkNeighbors(g, s, marks, order, order[head]);
      StillExplored(g, marks, order, marks', order', head);
      marks, order := marks', order';
      head := head + 1;
    }
    count := |order|;
    Complete(g, s, marks, order);
  }

}
