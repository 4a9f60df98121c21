/** `DepthFirstSearch`: the vertices connected to a source, found with a LIFO stack. Like the breadth-first
    search it marks a vertex when it pushes it, so it pushes every vertex at most once; the two differ only in
    which marked vertex they explore next, and so find the same marks and the same count. */
module DepthFirstSearch {
  import opened Seqs
  import opened AbstractUGraph
  import opened SearchMarks
  import BreadthFirstSearch

  /** Every marked vertex is either still on the stack or explored, and the stack holds marked vertices only. */
  predicate StackCovers(g: Graph, marks: seq<bool>, order: seq<nat>, stack: seq<nat>)
    requires Tracked(g, marks, order)
  {
    && (forall k :: 0 <= k < |stack| ==> stack[k] in order)
    && (forall i :: 0 <= i < |order| ==> order[i] in stack || Explored(g, marks, order[i]))
  }

  /** Popping `top` off the stack, exploring it and pushing the vertices it newly marked keeps the stack covering
      the marked vertices. */
  lemma PopExplorePush(g: Graph, marks: seq<bool>, order: seq<nat>, stack: seq<nat>,
                       marks': seq<bool>, order': seq<nat>)
    requires Tracked(g, marks, order) && Tracked(g, marks', order')
    requires StackCovers(g, marks, order, stack) && |stack| > 0
    requires |order| <= |order'| && order'[..|order|] == order
    requires forall v :: 0 <= v < V(g) && marks[v] ==> marks'[v]
    requires stack[|stack| - 1] < V(g) && Explored(g, marks', stack[|stack| - 1])
    ensures StackCovers(g, marks', order', stack[..|stack| - 1] + order'[|order|..])
  {
    var stack' := stack[..|stack| - 1] + order'[|order|..];
    PushedListed(stack, order, order', stack');
    PoppedCovered(g, marks, order, stack, marks', order', stack');
  }

  /** The stack after the step holds listed vertices only. */
  lemma PushedListed(stack: seq<nat>, order: seq<nat>, order': seq<nat>, stack': seq<nat>)
    requires |stack| > 0 && forall k :: 0 <= k < |stack| ==> stack[k] in order
    requires |order| <= |order'| && order'[..|order|] == order
    requires stack' == stack[..|stack| - 1] + order'[|order|..]
    ensures forall k :: 0 <= k < |stack'| ==> stack'[k] in order'
  {
    forall k | 0 <= k < |stack'|
      ensures stack'[k] in order'
    {
      if k < |stack| - 1 {
        assert stack'[k] == stack[k];
        var i :| 0 <= i < |order| && order[i] == stack[k];
        assert order'[i] == order'[..|order|][i];
      } else {
        assert stack'[k] == order'[|order| + k - (|stack| - 1)];
      }
    }
  }

  /** After the step every listed vertex is on the stack or explored. */
  lemma PoppedCovered(g: Graph, marks: seq<bool>, order: seq<nat>, stack: seq<nat>,
                      marks': seq<bool>, order': seq<nat>, stack': seq<nat>)
    requires Tracked(g, marks, order) && Tracked(g, marks', order')
    requires StackCovers(g, marks, order, stack) && |stack| > 0
    requires |order| <= |order'| && order'[..|order|] == order
    requires forall v :: 0 <= v < V(g) && marks[v] ==> marks'[v]
    requires stack[|stack| - 1] < V(g) && Explored(g, marks', stack[|stack| - 1])
    requires stack' == stack[..|stack| - 1] + order'[|order|..]
    ensures forall i :: 0 <= i < |order'| ==> order'[i] in stack' || Explored(g, marks', order'[i])
  {
    var top := stack[|stack| - 1];
    forall i | 0 <= i < |order'|
      ensures order'[i] in stack' || Explored(g, marks', order'[i])
    {
      if i < |order| {
        assert order'[i] == order'[..|order|][i] == order[i];
        if order[i] != top && order[i] in stack {
          var k :| 0 <= k < |stack| && stack[k] == order[i];
          assert stack'[k] == stack[k];
        } else if order[i] != top {
          assert Explored(g, marks, order[i]);
        }
      } else {
        assert order'[i] == stack'[|stack| - 1 + i - |order|];
      }
    }
  }

  /** The constructor: `marks[v]` is `marked(v)`, `count` is `count()`, and `order` lists the vertices in the order
      they were pushed. The marked vertices are exactly those reachable from `s`, each pushed once, and the count
      is their number. */
  method Search(g: Graph, s: nat) returns (marks: seq<bool>, count: nat, order: seq<nat>)
    requires Valid(g)
    requires s < V(g)
    ensures |marks| == V(g)
    ensures forall v :: 0 <= v < V(g) ==> (marks[v] <==> Reachable(g, s, v))
    ensures count == CountTrue(marks) && 1 <= count <= V(g)
    ensures |order| == count && NoDup(order) && order[0] == s
    ensures forall v :: 0 <= v < V(g) ==> (marks[v] <==> v in order)
  {
    marks, order := Start(g, s);
    var stack := [s];
    while stack != []
      invariant Tracked(g, marks, order) && Sound(g, s, marks)
      invariant |order| >= 1 && order[0] == s
      invariant StackCovers(g, marks, order, stack)
      decreases V(g) - |order|, |stack|
    {
      var top := stack[|stack| - 1];
      var marks', order' := MarkNeighbors(g, s, marks, order, top);
      PopExplorePush(g, marks, order, stack, marks', order');
      assert order'[0] == order'[..|order|][0];
      stack := stack[..|stack| - 1] + order'[|order|..];
      marks, order := marks', order';
    }
    count := |order|;
    Complete(g, s, marks, order);
  }

  /** Both searches mark the same vertices and count the same number of them. */
  method SearchesAgree(g: Graph, s: nat) returns (bfsMarks: seq<bool>, bfsCount: nat, dfsMarks: seq<bool>, dfsCount: nat)
    requires Valid(g)
    requires s < V(g)
    ensures bfsMarks == dfsMarks && bfsCount == dfsCount
  {
    var bfsOrder, dfsOrder;
    bfsMarks, bfsCount, bfsOrder := BreadthFirstSearch.Search(g, s);
    dfsMarks, dfsCount, dfsOrder := Search(g, s);
  }
}
