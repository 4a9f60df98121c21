/** `GraphInfo::findCycle`: an iterative depth-first search over every vertex that records where each vertex was
    reached from, stops at the first marked neighbour that is not the current vertex's own ancestor, and rebuilds
    a cycle by walking ancestor links from the current vertex back to that neighbour's ancestor. */
module GraphInfo {
  import opened Seqs
  import opened AbstractUGraph
  import ALUGraph

  /** The neighbour lists of all vertices, as the search reads them. */
  function Adj(g: Graph): (adj: seq<seq<nat>>)
    ensures |adj| == V(g)
    ensures forall v :: 0 <= v < V(g) ==> adj[v] == Neighbors(g, v)
  {
    seq(V(g), v requires 0 <= v < V(g) => Neighbors(g, v))
  }

  /** Neighbours are vertices, and for distinct vertices the neighbour relation is symmetric with multiplicity. */
  predicate Shape(adj: seq<seq<nat>>)
  {
    && (forall v, w :: 0 <= v < |adj| && w in adj[v] ==> w < |adj|)
    && (forall v, w :: 0 <= v < |adj| && 0 <= w < |adj| && v != w ==> Count(adj[v], w) == Count(adj[w], v))
  }

  /** Every store the graph operations build has this shape. */
  lemma AdjShape(g: Graph)
    requires Valid(g)
    ensures Shape(Adj(g))
  {
    ValidShape(g);
  }

  // ----- cycles and forests -----

  /** `c` is a cycle: distinct vertices, each adjacent to the next and the last to the first. A cycle of two
      vertices needs two parallel edges, and a cycle of one vertex is a self-loop. */
  predicate IsCycle(adj: seq<seq<nat>>, c: seq<nat>)
  {
    && |c| >= 1
    && (forall i :: 0 <= i < |c| ==> c[i] < |adj|)
    && NoDup(c)
    && (forall i :: 0 <= i < |c| - 1 ==> c[i + 1] in adj[c[i]])
    && c[0] in adj[c[|c| - 1]]
    && (|c| == 2 ==> Count(adj[c[0]], c[1]) >= 2)
  }

  /** The edges are exactly the links from each vertex to its parent `anc[v]`, once each; a root is its own parent
      and parents are shallower than their children. When `rootLoops` holds, a root may carry self-loops too. */
  predicate Forest(adj: seq<seq<nat>>, rootLoops: bool, anc: seq<nat>, depth: seq<nat>)
  {
    && |anc| == |adj| && |depth| == |adj|
    && (forall v :: 0 <= v < |adj| ==> anc[v] < |adj| && (anc[v] != v ==> depth[anc[v]] < depth[v]))
    && (forall v, w {:trigger Count(adj[v], w)} :: 0 <= v < |adj| && 0 <= w < |adj| && v != w ==>
          Count(adj[v], w) == if anc[w] == v || anc[v] == w then 1 else 0)
    && (forall v :: 0 <= v < |adj| ==> Count(adj[v], v) == 0 || (rootLoops && anc[v] == v))
  }

  ghost predicate IsForest(adj: seq<seq<nat>>, rootLoops: bool)
  {
    exists anc, depth :: Forest(adj, rootLoops, anc, depth)
  }

  /** An index of a deepest vertex of `c`. */
  function Deepest(c: seq<nat>, depth: seq<nat>): (i: nat)
    requires |c| >= 1
    requires forall j :: 0 <= j < |c| ==> c[j] < |depth|
    ensures i < |c|
    ensures forall j :: 0 <= j < |c| ==> depth[c[j]] <= depth[c[i]]
  {
    if |c| == 1 then 0
    else
      var k := Deepest(c[..|c| - 1], depth);
      assert forall j :: 0 <= j < |c| - 1 ==> c[..|c| - 1][j] == c[j];
      if depth[c[|c| - 1]] > depth[c[k]] then |c| - 1 else k
  }

  /** In a forest, a neighbour no deeper than `v` is the parent of `v`. */
  lemma ParentOf(adj: seq<seq<nat>>, rootLoops: bool, anc: seq<nat>, depth: seq<nat>, v: nat, w: nat)
    requires Forest(adj, rootLoops, anc, depth)
    requires v < |adj| && w < |adj| && v != w
    requires w in adj[v] || v in adj[w]
    requires depth[w] <= depth[v]
    ensures anc[v] == w
  {
    assert Count(adj[v], w) > 0 || Count(adj[w], v) > 0;
    assert Count(adj[v], w) == Count(adj[w], v) == if anc[w] == v || anc[v] == w then 1 else 0;
  }

  /** The first two entries of a cycle of two or more are distinct vertices. */
  lemma CycleEnds(adj: seq<seq<nat>>, c: seq<nat>)
    requires IsCycle(adj, c) && |c| >= 2
    ensures c[0] != c[1] && c[0] < |adj| && c[1] < |adj|
  {
  }

  /** In a forest the only cycles are self-loops on roots: a deepest vertex of a longer cycle would need two
      distinct cycle neighbours, and both would have to be its parent. */
  lemma ForestCycles(adj: seq<seq<nat>>, rootLoops: bool, anc: seq<nat>, depth: seq<nat>, c: seq<nat>)
    requires Forest(adj, rootLoops, anc, depth)
    requires IsCycle(adj, c)
    ensures |c| == 1 && rootLoops && anc[c[0]] == c[0]
  {
    var n := |c|;
    if n == 2 {
      CycleEnds(adj, c);
      assert false;
    } else if n >= 3 {
      var i := Deepest(c, depth);
      var pi := if i == 0 then n - 1 else i - 1;
      var ni := if i == n - 1 then 0 else i + 1;
      assert c[ni] in adj[c[i]] && c[i] in adj[c[pi]];
      ParentOf(adj, rootLoops, anc, depth, c[i], c[ni]);
      ParentOf(adj, rootLoops, anc, depth, c[i], c[pi]);
      assert false;
    } else {
      assert Count(adj[c[0]], c[0]) > 0;
    }
  }

  /** Without root self-loops a forest has no cycle at all. */
  lemma ForestAcyclic(adj: seq<seq<nat>>, anc: seq<nat>, depth: seq<nat>)
    requires Forest(adj, false, anc, depth)
    ensures forall c :: !IsCycle(adj, c)
  {
    forall c | IsCycle(adj, c)
      ensures false
    {
      ForestCycles(adj, false, anc, depth, c);
    }
  }

  // ----- ancestor chains -----

  /** `a` is met by following ancestor links from `b`; each link leads to a strictly shallower vertex. */
  ghost predicate OnChain(anc: seq<nat>, depth: seq<nat>, a: nat, b: nat)
    decreases if b < |depth| then depth[b] else 0
  {
    || a == b
    || (&& b < |anc| && b < |depth| && anc[b] < |depth| && depth[anc[b]] < depth[b]
        && OnChain(anc, depth, a, anc[b]))
  }

  /** The vertices met following ancestor links from `b`, up to but not including `a`. */
  ghost function ChainTo(anc: seq<nat>, depth: seq<nat>, a: nat, b: nat): seq<nat>
    requires OnChain(anc, depth, a, b)
    decreases if b < |depth| then depth[b] else 0
  {
    if a == b then [] else [b] + ChainTo(anc, depth, a, anc[b])
  }

  /** Every marked vertex other than a root hangs below a marked, shallower ancestor. */
  ghost predicate ChainsMarked(marks: seq<bool>, anc: seq<nat>, depth: seq<nat>)
  {
    && |anc| == |marks| && |depth| == |marks|
    && forall v :: 0 <= v < |marks| && marks[v] && anc[v] != v ==>
         anc[v] < |marks| && marks[anc[v]] && depth[anc[v]] < depth[v]
  }

  /** Marking a fresh vertex `w` does not disturb the chains of marked vertices. */
  lemma {:induction false} OnChainFrame(marks: seq<bool>, anc: seq<nat>, depth: seq<nat>, a: nat, b: nat,
                                        w: nat, t: nat, d: nat)
    requires ChainsMarked(marks, anc, depth)
    requires b < |marks| && marks[b] && w < |marks| && !marks[w]
    requires OnChain(anc, depth, a, b)
    ensures OnChain(anc[w := t], depth[w := d], a, b)
    decreases depth[b]
  {
    if a != b {
      OnChainFrame(marks, anc, depth, a, anc[b], w, t, d);
    }
  }

  /** A marked vertex reached below a marked, shallower ancestor: the chains of `s.anc` stay among marked
      vertices. */
  lemma ChainsOfTree(adj: seq<seq<nat>>, s: State, h: Ghosts)
    requires Sized(adj, s, h) && TreeLinks(adj, s, h)
    ensures ChainsMarked(s.marks, s.anc, h.depth)
  {
  }

  // ----- the search state -----

  /** What the search keeps: `marks`, the recorded ancestors and the stack. */
  datatype State = State(marks: seq<bool>, anc: seq<nat>, stack: seq<nat>)

  /** Proof-only companions of the state: each marked vertex's depth in its search tree, and which vertices have
      been popped. */
  datatype Ghosts = Ghosts(depth: seq<nat>, done: seq<bool>)

  predicate Sized(adj: seq<seq<nat>>, s: State, h: Ghosts)
  {
    && |s.marks| == |adj| && |s.anc| == |adj| && |h.depth| == |adj| && |h.done| == |adj|
    && (forall v :: 0 <= v < |adj| ==> s.anc[v] < |adj|)
    && (forall i :: 0 <= i < |s.stack| ==> s.stack[i] < |adj|)
  }

  /** Popped vertices are marked; a marked vertex that is not a root was reached along an edge from its ancestor,
      which is marked, popped and shallower. */
  predicate TreeLinks(adj: seq<seq<nat>>, s: State, h: Ghosts)
    requires Sized(adj, s, h)
  {
    && (forall v :: 0 <= v < |adj| && h.done[v] ==> s.marks[v])
    && (forall v :: 0 <= v < |adj| && s.marks[v] && s.anc[v] != v ==>
          s.marks[s.anc[v]] && h.done[s.anc[v]] && h.depth[s.anc[v]] < h.depth[v] && v in adj[s.anc[v]])
  }

  /** What exploring `v` without finding a cycle showed: every neighbour other than `v` and its ancestor appears
      once and has `v` as its ancestor, and a self-loop is only allowed on a root when they are not reported. */
  predicate PoppedOK(adj: seq<seq<nat>>, fix: bool, s: State, v: nat)
    requires |s.marks| == |adj| && |s.anc| == |adj| && v < |adj|
  {
    && (forall w {:trigger Count(adj[v], w)} :: 0 <= w < |adj| && w != v && w != s.anc[v] ==>
          Count(adj[v], w) == if s.marks[w] && s.anc[w] == v then 1 else 0)
    && (Count(adj[v], v) == 0 || (!fix && s.anc[v] == v))
  }

  /** Every popped vertex, except `top` while it is being explored, satisfies `PoppedOK`. */
  predicate AllPopped(adj: seq<seq<nat>>, fix: bool, s: State, h: Ghosts, busy: bool, top: nat)
    requires Sized(adj, s, h)
  {
    forall v :: 0 <= v < |adj| && h.done[v] && !(busy && v == top) ==> PoppedOK(adj, fix, s, v)
  }

  /** The stack holds the marked vertices not popped yet, once each, and the ancestor of each entry lies on the
      ancestor chain of the ancestor of every entry above it. */
  ghost predicate StackBase(adj: seq<seq<nat>>, s: State, h: Ghosts)
    requires Sized(adj, s, h)
  {
    && NoDup(s.stack)
    && (forall i :: 0 <= i < |s.stack| ==> s.marks[s.stack[i]] && !h.done[s.stack[i]])
    && (forall v :: 0 <= v < |adj| && s.marks[v] && !h.done[v] ==> v in s.stack)
    && (forall i, j :: 0 <= i < j < |s.stack| ==> OnChain(s.anc, h.depth, s.anc[s.stack[i]], s.anc[s.stack[j]]))
  }

  /** Between two pops: a root is only ever alone on the stack. */
  ghost predicate Idle(adj: seq<seq<nat>>, fix: bool, s: State, h: Ghosts)
  {
    && Sized(adj, s, h) && TreeLinks(adj, s, h) && StackBase(adj, s, h)
    && (forall i :: 0 <= i < |s.stack| && s.anc[s.stack[i]] == s.stack[i] ==> |s.stack| == 1)
    && AllPopped(adj, fix, s, h, false, 0)
  }

  /** What the neighbours `adj[top][..j]` examined so far show: those other than `top` and its ancestor are the
      vertices now hanging below `top`, once each; none of these has been popped. */
  predicate Partial(adj: seq<seq<nat>>, fix: bool, s: State, h: Ghosts, top: nat, j: nat)
    requires Sized(adj, s, h) && top < |adj| && j <= |adj[top]|
  {
    && (forall w {:trigger Count(adj[top][..j], w)} :: 0 <= w < |adj| && w != top && w != s.anc[top] ==>
          Count(adj[top][..j], w) == if s.marks[w] && s.anc[w] == top then 1 else 0)
    && (Count(adj[top][..j], top) == 0 || (!fix && s.anc[top] == top))
    && (forall v :: 0 <= v < |adj| && s.marks[v] && s.anc[v] == top && v != top ==> !h.done[v])
  }

  /** While the popped vertex `top` is explored: every stack entry hangs, through its ancestor, on the chain of
      `top`, and none is a root. */
  ghost predicate BusyCore(adj: seq<seq<nat>>, s: State, h: Ghosts, top: nat)
  {
    && Sized(adj, s, h) && top < |adj| && s.marks[top] && h.done[top]
    && TreeLinks(adj, s, h) && StackBase(adj, s, h)
    && (forall i :: 0 <= i < |s.stack| ==>
          s.anc[s.stack[i]] != s.stack[i] && OnChain(s.anc, h.depth, s.anc[s.stack[i]], top))
  }

  /** The exploration invariant after examining `adj[top][..j]`. */
  ghost predicate Busy(adj: seq<seq<nat>>, fix: bool, s: State, h: Ghosts, top: nat, j: nat)
  {
    && BusyCore(adj, s, h, top) && j <= |adj[top]|
    && AllPopped(adj, fix, s, h, true, top)
    && Partial(adj, fix, s, h, top, j)
  }

  lemma PrefixCount(l: seq<nat>, j: nat, x: nat)
    requires j < |l|
    ensures Count(l[..j + 1], x) == Count(l[..j], x) + if l[j] == x then 1 else 0
  {
    assert l[..j + 1] == l[..j] + [l[j]];
    CountAppend(l[..j], [l[j]], x);
  }

  /** After popping `top`, every remaining entry hangs on the chain of `top`: its ancestor's chain passes
      through the ancestor of `top`, one link above `top`, and a root is never below another entry. */
  lemma PopChains(adj: seq<seq<nat>>, s: State, h: Ghosts)
    requires Sized(adj, s, h) && TreeLinks(adj, s, h) && s.stack != []
    requires forall i, j :: 0 <= i < j < |s.stack| ==> OnChain(s.anc, h.depth, s.anc[s.stack[i]], s.anc[s.stack[j]])
    requires forall i :: 0 <= i < |s.stack| ==> s.marks[s.stack[i]]
    requires forall i :: 0 <= i < |s.stack| && s.anc[s.stack[i]] == s.stack[i] ==> |s.stack| == 1
    ensures var n, top := |s.stack| - 1, s.stack[|s.stack| - 1];
            forall i :: 0 <= i < n ==>
              s.anc[s.stack[i]] != s.stack[i] && OnChain(s.anc, h.depth, s.anc[s.stack[i]], top)
  {
    var n, top := |s.stack| - 1, s.stack[|s.stack| - 1];
    forall i | 0 <= i < n
      ensures s.anc[s.stack[i]] != s.stack[i] && OnChain(s.anc, h.depth, s.anc[s.stack[i]], top)
    {
      assert OnChain(s.anc, h.depth, s.anc[s.stack[i]], s.anc[top]);
    }
  }

  /** Popping `top` keeps the stack equal to the marked, unpopped vertices. */
  lemma PopMembers(adj: seq<seq<nat>>, s: State, h: Ghosts)
    requires Sized(adj, s, h) && s.stack != [] && NoDup(s.stack)
    requires forall i :: 0 <= i < |s.stack| ==> s.marks[s.stack[i]] && !h.done[s.stack[i]]
    requires forall v :: 0 <= v < |adj| && s.marks[v] && !h.done[v] ==> v in s.stack
    ensures var top := s.stack[|s.stack| - 1];
            var s', h' := s.(stack := s.stack[..|s.stack| - 1]), h.(done := h.done[top := true]);
            && NoDup(s'.stack)
            && (forall i :: 0 <= i < |s'.stack| ==> s'.marks[s'.stack[i]] && !h'.done[s'.stack[i]])
            && (forall v :: 0 <= v < |adj| && s'.marks[v] && !h'.done[v] ==> v in s'.stack)
  {
    var top := s.stack[|s.stack| - 1];
    var s', h' := s.(stack := s.stack[..|s.stack| - 1]), h.(done := h.done[top := true]);
    assert forall i :: 0 <= i < |s'.stack| ==> s'.stack[i] == s.stack[i];
    forall v | 0 <= v < |adj| && s'.marks[v] && !h'.done[v]
      ensures v in s'.stack
    {
      var k :| 0 <= k < |s.stack| && s.stack[k] == v;
    }
  }

  /** Before any neighbour of the popped `top` is examined, nothing hangs below it. */
  lemma PopPartial(adj: seq<seq<nat>>, fix: bool, s: State, h: Ghosts, top: nat)
    requires Sized(adj, s, h) && TreeLinks(adj, s, h)
    requires top < |adj| && !h.done[top]
    ensures var h' := h.(done := h.done[top := true]);
            Sized(adj, s, h') && Partial(adj, fix, s, h', top, 0)
  {
    var h' := h.(done := h.done[top := true]);
    assert adj[top][..0] == [];
    forall w | 0 <= w < |adj| && w != top && w != s.anc[top]
      ensures Count(adj[top][..0], w) == if s.marks[w] && s.anc[w] == top then 1 else 0
    {
    }
  }

  lemma PopCore(adj: seq<seq<nat>>, fix: bool, s: State, h: Ghosts)
    requires Idle(adj, fix, s, h) && s.stack != []
    ensures var top := s.stack[|s.stack| - 1];
            && top < |adj| && !h.done[top]
            && BusyCore(adj, s.(stack := s.stack[..|s.stack| - 1]), h.(done := h.done[top := true]), top)
  {
    var top := s.stack[|s.stack| - 1];
    var s' := s.(stack := s.stack[..|s.stack| - 1]);
    var h' := h.(done := h.done[top := true]);
    PopChains(adj, s, h);
    PopMembers(adj, s, h);
    PopOrder(s.anc, h.depth, s.stack);
  }

  /** Popping the top of the stack starts its exploration. */
  lemma PopStep(adj: seq<seq<nat>>, fix: bool, s: State, h: Ghosts)
    requires Idle(adj, fix, s, h) && s.stack != []
    ensures var top := s.stack[|s.stack| - 1];
            && top < |adj| && !h.done[top]
            && Busy(adj, fix, s.(stack := s.stack[..|s.stack| - 1]), h.(done := h.done[top := true]), top, 0)
  {
    var top := s.stack[|s.stack| - 1];
    var s' := s.(stack := s.stack[..|s.stack| - 1]);
    var h' := h.(done := h.done[top := true]);
    PopCore(adj, fix, s, h);
    PopPartial(adj, fix, s', h, top);
    assert AllPopped(adj, fix, s', h', true, top);
  }

  lemma PopOrder(anc: seq<nat>, depth: seq<nat>, stack: seq<nat>)
    requires stack != []
    requires forall i :: 0 <= i < |stack| ==> stack[i] < |anc|
    requires forall i, j :: 0 <= i < j < |stack| ==> OnChain(anc, depth, anc[stack[i]], anc[stack[j]])
    ensures var rest := stack[..|stack| - 1];
            forall i, j :: 0 <= i < j < |rest| ==> OnChain(anc, depth, anc[rest[i]], anc[rest[j]])
  {
    var rest := stack[..|stack| - 1];
    assert forall i :: 0 <= i < |rest| ==> rest[i] == stack[i];
  }

  /** Marking the unmarked neighbour `w` of `top`: it records `top` as its ancestor and goes on the stack. */
  function Visit(s: State, w: nat, top: nat): (r: State)
    requires w < |s.marks| && w < |s.anc|
    ensures r.marks == s.marks[w := true] && r.anc == s.anc[w := top] && r.stack == s.stack + [w]
  {
    State(s.marks[w := true], s.anc[w := top], s.stack + [w])
  }

  /** `w` sits one level below `top`. */
  function Deeper(h: Ghosts, w: nat, top: nat): Ghosts
    requires w < |h.depth| && top < |h.depth|
  {
    h.(depth := h.depth[w := h.depth[top] + 1])
  }

  lemma MarkTree(adj: seq<seq<nat>>, fix: bool, s: State, h: Ghosts, top: nat, j: nat)
    requires Busy(adj, fix, s, h, top, j) && j < |adj[top]|
    requires adj[top][j] < |adj| && !s.marks[adj[top][j]]
    ensures var w := adj[top][j];
            Sized(adj, Visit(s, w, top), Deeper(h, w, top)) && TreeLinks(adj, Visit(s, w, top), Deeper(h, w, top))
  {
    var w := adj[top][j];
    assert w in adj[top];
  }

  /** Chains among marked vertices survive marking `w`, and `w` hangs directly below `top`. */
  lemma MarkChains(s: State, h: Ghosts, top: nat, w: nat)
    requires ChainsMarked(s.marks, s.anc, h.depth)
    requires top < |s.marks| && s.marks[top] && w < |s.marks| && !s.marks[w]
    requires forall i :: 0 <= i < |s.stack| ==>
               s.stack[i] < |s.marks| && s.marks[s.stack[i]] && s.anc[s.stack[i]] != s.stack[i]
    requires forall i, k :: 0 <= i < k < |s.stack| ==> OnChain(s.anc, h.depth, s.anc[s.stack[i]], s.anc[s.stack[k]])
    requires forall i :: 0 <= i < |s.stack| ==> OnChain(s.anc, h.depth, s.anc[s.stack[i]], top)
    ensures var s', h' := Visit(s, w, top), Deeper(h, w, top);
            && (forall i, k :: 0 <= i < k < |s'.stack| ==>
                  OnChain(s'.anc, h'.depth, s'.anc[s'.stack[i]], s'.anc[s'.stack[k]]))
            && (forall i :: 0 <= i < |s'.stack| ==> OnChain(s'.anc, h'.depth, s'.anc[s'.stack[i]], top))
  {
    var s', h' := Visit(s, w, top), Deeper(h, w, top);
    MarkChainsTop(s, h, top, w);
    MarkChainsOrder(s, h, top, w);
    forall i, k | 0 <= i < k < |s'.stack|
      ensures OnChain(s'.anc, h'.depth, s'.anc[s'.stack[i]], s'.anc[s'.stack[k]])
    {
      if k == |s.stack| {
        assert s'.anc[s'.stack[k]] == top;
      }
    }
  }

  lemma MarkChainsTop(s: State, h: Ghosts, top: nat, w: nat)
    requires ChainsMarked(s.marks, s.anc, h.depth)
    requires top < |s.marks| && s.marks[top] && w < |s.marks| && !s.marks[w]
    requires forall i :: 0 <= i < |s.stack| ==> s.stack[i] < |s.marks| && s.marks[s.stack[i]]
    requires forall i :: 0 <= i < |s.stack| ==> OnChain(s.anc, h.depth, s.anc[s.stack[i]], top)
    ensures var s', h' := Visit(s, w, top), Deeper(h, w, top);
            forall i :: 0 <= i < |s'.stack| ==> OnChain(s'.anc, h'.depth, s'.anc[s'.stack[i]], top)
  {
    var s', h' := Visit(s, w, top), Deeper(h, w, top);
    forall i | 0 <= i < |s.stack|
      ensures OnChain(s'.anc, h'.depth, s'.anc[s'.stack[i]], top)
    {
      assert s'.stack[i] == s.stack[i];
      VisitKeepsChain(s, h, top, w, s'.stack[i]);
    }
  }

  /** Marking the fresh `w` below `top` keeps the chain from a marked vertex's ancestor up to `top`. */
  lemma VisitKeepsChain(s: State, h: Ghosts, top: nat, w: nat, v: nat)
    requires ChainsMarked(s.marks, s.anc, h.depth)
    requires top < |s.marks| && s.marks[top] && w < |s.marks| && !s.marks[w]
    requires v < |s.marks| && s.marks[v] && OnChain(s.anc, h.depth, s.anc[v], top)
    ensures OnChain(Visit(s, w, top).anc, Deeper(h, w, top).depth, Visit(s, w, top).anc[v], top)
  {
    var s', h' := Visit(s, w, top), Deeper(h, w, top);
    assert s'.anc[v] == s.anc[v];
    OnChainFrame(s.marks, s.anc, h.depth, s'.anc[v], top, w, top, h.depth[top] + 1);
  }

  lemma MarkChainsOrder(s: State, h: Ghosts, top: nat, w: nat)
    requires ChainsMarked(s.marks, s.anc, h.depth)
    requires top < |s.marks| && w < |s.marks| && !s.marks[w]
    requires forall i :: 0 <= i < |s.stack| ==>
               s.stack[i] < |s.marks| && s.marks[s.stack[i]] && s.anc[s.stack[i]] != s.stack[i]
    requires forall i, k :: 0 <= i < k < |s.stack| ==> OnChain(s.anc, h.depth, s.anc[s.stack[i]], s.anc[s.stack[k]])
    ensures var s', h' := Visit(s, w, top), Deeper(h, w, top);
            forall i, k :: 0 <= i < k < |s.stack| ==>
              OnChain(s'.anc, h'.depth, s'.anc[s'.stack[i]], s'.anc[s'.stack[k]])
  {
    var s', h' := Visit(s, w, top), Deeper(h, w, top);
    forall i, k | 0 <= i < k < |s.stack|
      ensures OnChain(s'.anc, h'.depth, s'.anc[s'.stack[i]], s'.anc[s'.stack[k]])
    {
      assert s'.stack[i] == s.stack[i] != w && s'.stack[k] == s.stack[k] != w;
      var a, b := s.anc[s.stack[i]], s.anc[s.stack[k]];
      OnChainFrame(s.marks, s.anc, h.depth, a, b, w, top, h.depth[top] + 1);
    }
  }

  /** Pushing the freshly marked `w` keeps the stack equal to the marked, unpopped vertices, each once. */
  lemma MarkMembers(adj: seq<seq<nat>>, s: State, h: Ghosts, top: nat, w: nat)
    requires Sized(adj, s, h) && top < |adj| && w < |adj| && !s.marks[w] && !h.done[w]
    requires NoDup(s.stack)
    requires forall i :: 0 <= i < |s.stack| ==> s.marks[s.stack[i]] && !h.done[s.stack[i]]
    requires forall v :: 0 <= v < |adj| && s.marks[v] && !h.done[v] ==> v in s.stack
    ensures var s', h' := Visit(s, w, top), Deeper(h, w, top);
            && NoDup(s'.stack)
            && (forall i :: 0 <= i < |s'.stack| ==> s'.marks[s'.stack[i]] && !h'.done[s'.stack[i]])
            && (forall v :: 0 <= v < |adj| && s'.marks[v] && !h'.done[v] ==> v in s'.stack)
  {
    var s', h' := Visit(s, w, top), Deeper(h, w, top);
    var n := |s.stack|;
    assert forall i :: 0 <= i < n ==> s'.stack[i] == s.stack[i] && s.stack[i] != w;
    forall v | 0 <= v < |adj| && s'.marks[v] && !h'.done[v]
      ensures v in s'.stack
    {
      if v != w {
        var k :| 0 <= k < n && s.stack[k] == v;
        assert s'.stack[k] == v;
      }
    }
  }

  lemma MarkStack(adj: seq<seq<nat>>, s: State, h: Ghosts, top: nat, w: nat)
    requires Sized(adj, s, h) && TreeLinks(adj, s, h) && StackBase(adj, s, h)
    requires forall i :: 0 <= i < |s.stack| ==>
               s.anc[s.stack[i]] != s.stack[i] && OnChain(s.anc, h.depth, s.anc[s.stack[i]], top)
    requires top < |adj| && s.marks[top] && w < |adj| && !s.marks[w]
    ensures var s', h' := Visit(s, w, top), Deeper(h, w, top);
            && Sized(adj, s', h') && StackBase(adj, s', h')
            && (forall i :: 0 <= i < |s'.stack| ==>
                  s'.anc[s'.stack[i]] != s'.stack[i] && OnChain(s'.anc, h'.depth, s'.anc[s'.stack[i]], top))
  {
    ChainsOfTree(adj, s, h);
    MarkChains(s, h, top, w);
    MarkMembers(adj, s, h, top, w);
  }

  lemma MarkPopped(adj: seq<seq<nat>>, fix: bool, s: State, h: Ghosts, top: nat, j: nat)
    requires Busy(adj, fix, s, h, top, j) && j < |adj[top]|
    requires adj[top][j] < |adj| && !s.marks[adj[top][j]]
    ensures var w := adj[top][j];
            var s', h' := Visit(s, w, top), Deeper(h, w, top);
            Sized(adj, s', h') && AllPopped(adj, fix, s', h', true, top)
  {
    var w := adj[top][j];
    var s', h' := Visit(s, w, top), Deeper(h, w, top);
    MarkTree(adj, fix, s, h, top, j);
    forall v | 0 <= v < |adj| && h'.done[v] && v != top
      ensures PoppedOK(adj, fix, s', v)
    {
      assert PoppedOK(adj, fix, s, v);
      assert w != v && w != s.anc[v];
      forall x | 0 <= x < |adj| && x != v && x != s'.anc[v]
        ensures Count(adj[v], x) == if s'.marks[x] && s'.anc[x] == v then 1 else 0
      {
        assert Count(adj[v], x) == if s.marks[x] && s.anc[x] == v then 1 else 0;
      }
    }
  }

  lemma MarkPartial(adj: seq<seq<nat>>, fix: bool, s: State, h: Ghosts, top: nat, j: nat)
    requires Busy(adj, fix, s, h, top, j) && j < |adj[top]|
    requires adj[top][j] < |adj| && !s.marks[adj[top][j]]
    ensures var w := adj[top][j];
            var s', h' := Visit(s, w, top), Deeper(h, w, top);
            Sized(adj, s', h') && Partial(adj, fix, s', h', top, j + 1)
  {
    var w := adj[top][j];
    var s', h' := Visit(s, w, top), Deeper(h, w, top);
    MarkTree(adj, fix, s, h, top, j);
    assert w != top && w != s.anc[top];
    forall x | 0 <= x < |adj| && x != top && x != s'.anc[top]
      ensures Count(adj[top][..j + 1], x) == if s'.marks[x] && s'.anc[x] == top then 1 else 0
    {
      PrefixCount(adj[top], j, x);
      assert Count(adj[top][..j], x) == if s.marks[x] && s.anc[x] == top then 1 else 0;
    }
    PrefixCount(adj[top], j, top);
  }

  /** Marking an unmarked neighbour keeps the exploration invariant and moves past that neighbour. */
  lemma MarkStep(adj: seq<seq<nat>>, fix: bool, s: State, h: Ghosts, top: nat, j: nat)
    requires Busy(adj, fix, s, h, top, j) && j < |adj[top]|
    requires adj[top][j] < |adj| && !s.marks[adj[top][j]]
    ensures var w := adj[top][j];
            Busy(adj, fix, Visit(s, w, top), Deeper(h, w, top), top, j + 1)
  {
    MarkTree(adj, fix, s, h, top, j);
    MarkStack(adj, s, h, top, adj[top][j]);
    MarkPopped(adj, fix, s, h, top, j);
    MarkPartial(adj, fix, s, h, top, j);
    var w := adj[top][j];
    assert BusyCore(adj, Visit(s, w, top), Deeper(h, w, top), top);
  }

  /** A marked neighbour that does not close a cycle is the ancestor of `top` (or, as written, `top` itself on a
      root); passing it keeps the exploration invariant. */
  lemma SkipStep(adj: seq<seq<nat>>, fix: bool, s: State, h: Ghosts, top: nat, j: nat)
    requires Busy(adj, fix, s, h, top, j) && j < |adj[top]|
    requires adj[top][j] < |adj| && s.marks[adj[top][j]]
    requires !(fix && adj[top][j] == top) && s.anc[top] == adj[top][j]
    ensures Busy(adj, fix, s, h, top, j + 1)
  {
    var w := adj[top][j];
    forall x | 0 <= x < |adj| && x != top && x != s.anc[top]
      ensures Count(adj[top][..j + 1], x) == if s.marks[x] && s.anc[x] == top then 1 else 0
    {
      PrefixCount(adj[top], j, x);
    }
    PrefixCount(adj[top], j, top);
  }

  /** `nb` closes a cycle through `top`. When `nb` is not `top` itself, it has not been popped, it hangs below
      a vertex on the chain of `top`, and if it hangs directly below `top` it was listed twice. */
  ghost predicate LinkFacts(adj: seq<seq<nat>>, fix: bool, s: State, h: Ghosts, top: nat, nb: nat)
  {
    && Sized(adj, s, h) && TreeLinks(adj, s, h)
    && top < |adj| && nb < |adj| && nb in adj[top] && s.marks[top] && h.done[top] && s.marks[nb]
    && (nb == top ==> fix || s.anc[top] != top)
    && (nb != top ==>
          && s.anc[top] != nb && !h.done[nb] && s.anc[nb] != nb
          && OnChain(s.anc, h.depth, s.anc[nb], top)
          && (s.anc[nb] == top ==> Count(adj[top], nb) >= 2))
  }

  lemma PrefixCountLe(l: seq<nat>, j: nat, x: nat)
    requires j <= |l|
    ensures Count(l[..j], x) <= Count(l, x)
  {
    assert l == l[..j] + l[j..];
    CountAppend(l[..j], l[j..], x);
  }

  /** A marked neighbour other than the ancestor of `top` has not been popped: a popped vertex lists `top` only
      if it is the ancestor of `top` or hangs below `top`, and what hangs below `top` is not popped yet. */
  lemma LinkNotPopped(adj: seq<seq<nat>>, fix: bool, s: State, h: Ghosts, top: nat, j: nat)
    requires Shape(adj) && Busy(adj, fix, s, h, top, j) && j < |adj[top]|
    requires adj[top][j] < |adj| && s.marks[adj[top][j]]
    requires adj[top][j] != top && s.anc[top] != adj[top][j]
    ensures !h.done[adj[top][j]]
  {
    var nb := adj[top][j];
    assert nb in adj[top];
    assert Count(adj[nb], top) == Count(adj[top], nb) > 0;
    if s.anc[nb] != top {
      assert h.done[nb] ==> PoppedOK(adj, fix, s, nb);
    }
  }

  /** Finding a marked neighbour that closes a cycle establishes `LinkFacts`. */
  lemma LinkStep(adj: seq<seq<nat>>, fix: bool, s: State, h: Ghosts, top: nat, j: nat)
    requires Shape(adj) && Busy(adj, fix, s, h, top, j) && j < |adj[top]|
    requires adj[top][j] < |adj| && s.marks[adj[top][j]]
    requires (fix && adj[top][j] == top) || s.anc[top] != adj[top][j]
    ensures LinkFacts(adj, fix, s, h, top, adj[top][j])
  {
    var nb := adj[top][j];
    assert nb in adj[top];
    if nb != top {
      LinkNotPopped(adj, fix, s, h, top, j);
      assert nb in s.stack;
      var k :| 0 <= k < |s.stack| && s.stack[k] == nb;
      if s.anc[nb] == top {
        assert Count(adj[top][..j], nb) == 1;
        PrefixCount(adj[top], j, nb);
        PrefixCountLe(adj[top], j + 1, nb);
      }
    }
  }

  /** Exploring every neighbour of `top` without finding a cycle leaves `top` satisfying `PoppedOK`. */
  lemma FinishStep(adj: seq<seq<nat>>, fix: bool, s: State, h: Ghosts, top: nat)
    requires top < |adj| && Busy(adj, fix, s, h, top, |adj[top]|)
    ensures Idle(adj, fix, s, h)
  {
    assert adj[top][..|adj[top]|] == adj[top];
    assert PoppedOK(adj, fix, s, top);
  }

  /** A root: marked, its own ancestor, at depth zero. */
  function Root(s: State, r: nat): (t: State)
    requires r < |s.marks| && r < |s.anc|
    ensures t.marks == s.marks[r := true] && t.anc == s.anc[r := r] && t.stack == [r]
  {
    State(s.marks[r := true], s.anc[r := r], [r])
  }

  /** Starting a new search tree at an unmarked vertex, with the stack empty, keeps the invariant. */
  lemma RootStep(adj: seq<seq<nat>>, fix: bool, s: State, h: Ghosts, r: nat)
    requires Idle(adj, fix, s, h) && s.stack == []
    requires r < |adj| && !s.marks[r]
    ensures Idle(adj, fix, Root(s, r), h.(depth := h.depth[r := 0]))
  {
    var s', h' := Root(s, r), h.(depth := h.depth[r := 0]);
    assert Sized(adj, s', h') && TreeLinks(adj, s', h');
    forall v | 0 <= v < |adj| && h'.done[v]
      ensures PoppedOK(adj, fix, s', v)
    {
      assert PoppedOK(adj, fix, s, v);
      forall x | 0 <= x < |adj| && x != v && x != s'.anc[v]
        ensures Count(adj[v], x) == if s'.marks[x] && s'.anc[x] == v then 1 else 0
      {
        assert Count(adj[v], x) == if s.marks[x] && s.anc[x] == v then 1 else 0;
      }
    }
    assert StackBase(adj, s', h');
  }

  /** When every vertex is marked and the stack is empty, the ancestors and depths exhibit the graph as a forest,
      with self-loops on roots when those are not reported. */
  lemma AllDoneForest(adj: seq<seq<nat>>, fix: bool, s: State, h: Ghosts)
    requires Shape(adj) && Idle(adj, fix, s, h) && s.stack == []
    requires forall v :: 0 <= v < |adj| ==> s.marks[v]
    ensures Forest(adj, !fix, s.anc, h.depth)
  {
    assert forall v :: 0 <= v < |adj| ==> h.done[v];
    forall v, w | 0 <= v < |adj| && 0 <= w < |adj| && v != w
      ensures Count(adj[v], w) == if s.anc[w] == v || s.anc[v] == w then 1 else 0
    {
      assert PoppedOK(adj, fix, s, v);
      if w == s.anc[v] {
        assert PoppedOK(adj, fix, s, w);
        assert s.anc[w] != v by {
          if s.anc[w] != w {
            assert h.depth[s.anc[w]] < h.depth[w] < h.depth[v];
          }
        }
        assert Count(adj[w], v) == 1;
      }
    }
    forall v | 0 <= v < |adj|
      ensures Count(adj[v], v) == 0 || (!fix && s.anc[v] == v)
    {
      assert PoppedOK(adj, fix, s, v);
    }
  }

  // ----- rebuilding the cycle -----

  /** For distinct vertices the neighbour relation goes both ways. */
  lemma Mutual(adj: seq<seq<nat>>, v: nat, w: nat)
    requires Shape(adj) && v < |adj| && w in adj[v]
    ensures w < |adj| && v in adj[w]
  {
    if v != w {
      assert Count(adj[v], w) > 0;
    }
  }

  /** What the walk from `b` down to `a` along ancestor links meets, for a popped `b`: popped non-root vertices,
      each the child of the next, with strictly decreasing depths that all exceed the depth of `a`. */
  ghost predicate ChainWalk(adj: seq<seq<nat>>, s: State, h: Ghosts, a: nat, b: nat, ch: seq<nat>)
    requires Sized(adj, s, h) && a < |adj| && b < |adj|
  {
    && (ch == [] <==> a == b)
    && (ch != [] ==> ch[0] == b && ch[|ch| - 1] < |adj| && s.anc[ch[|ch| - 1]] == a)
    && (forall i :: 0 <= i < |ch| ==>
          && ch[i] < |adj| && h.done[ch[i]] && s.anc[ch[i]] != ch[i]
          && h.depth[a] < h.depth[ch[i]] <= h.depth[b])
    && (forall i :: 0 <= i < |ch| - 1 ==> ch[i] < |adj| && ch[i + 1] == s.anc[ch[i]])
    && (forall i, k :: 0 <= i < k < |ch| ==> ch[i] < |adj| && ch[k] < |adj| && h.depth[ch[k]] < h.depth[ch[i]])
  }

  /** The ancestor chain of a popped vertex consists of popped vertices and ends at a popped vertex. */
  lemma {:induction false} ChainFacts(adj: seq<seq<nat>>, s: State, h: Ghosts, a: nat, b: nat)
    requires Sized(adj, s, h) && TreeLinks(adj, s, h)
    requires b < |adj| && h.done[b]
    requires OnChain(s.anc, h.depth, a, b)
    ensures a < |adj| && h.done[a] && h.depth[a] <= h.depth[b]
    ensures ChainWalk(adj, s, h, a, b, ChainTo(s.anc, h.depth, a, b))
    decreases h.depth[b]
  {
    if a != b {
      var p := s.anc[b];
      assert p != b && s.marks[b];
      ChainFacts(adj, s, h, a, p);
      ChainWalkCons(adj, s, h, a, b, ChainTo(s.anc, h.depth, a, p));
    }
  }

  /** A walk from the ancestor of a popped non-root `b` extends to a walk from `b`. */
  lemma ChainWalkCons(adj: seq<seq<nat>>, s: State, h: Ghosts, a: nat, b: nat, rest: seq<nat>)
    requires Sized(adj, s, h)
    requires a < |adj| && b < |adj| && h.done[b] && s.anc[b] != b && h.depth[s.anc[b]] < h.depth[b]
    requires h.depth[a] <= h.depth[s.anc[b]]
    requires ChainWalk(adj, s, h, a, s.anc[b], rest)
    ensures ChainWalk(adj, s, h, a, b, [b] + rest)
  {
    var ch, p := [b] + rest, s.anc[b];
    forall i | 0 <= i < |ch|
      ensures ch[i] < |adj| && h.done[ch[i]] && s.anc[ch[i]] != ch[i] && h.depth[a] < h.depth[ch[i]] <= h.depth[b]
    {
      if i > 0 {
        assert ch[i] == rest[i - 1];
      }
    }
    forall i | 0 <= i < |ch| - 1
      ensures ch[i + 1] == s.anc[ch[i]]
    {
      assert ch[i + 1] == rest[i];
      if i > 0 {
        assert ch[i] == rest[i - 1];
      }
    }
    forall i, k | 0 <= i < k < |ch|
      ensures h.depth[ch[k]] < h.depth[ch[i]]
    {
      assert ch[k] == rest[k - 1];
      if i > 0 {
        assert ch[i] == rest[i - 1];
      }
    }
    if rest != [] {
      assert ch[|ch| - 1] == rest[|rest| - 1];
    }
  }

  /** The vertices found when `nb` is `top`'s own vertex as written: `top`, its ancestor, and `top` again. */
  predicate SelfLoopEcho(adj: seq<seq<nat>>, c: seq<nat>)
  {
    && |c| == 3 && c[0] == c[2] && c[0] != c[1] && c[0] < |adj| && c[1] < |adj|
    && c[0] in adj[c[0]] && c[1] in adj[c[0]] && c[0] in adj[c[1]]
  }

  /** No entry repeats in the chain from `top` followed by the ancestor of `nb` and `nb`. */
  lemma LinkDistinct(adj: seq<seq<nat>>, fix: bool, s: State, h: Ghosts, top: nat, nb: nat)
    requires Shape(adj) && LinkFacts(adj, fix, s, h, top, nb) && nb != top
    ensures var ca := s.anc[nb];
            NoDup(ChainTo(s.anc, h.depth, ca, top) + [ca, nb])
  {
    var ca := s.anc[nb];
    var ch := ChainTo(s.anc, h.depth, ca, top);
    ChainFacts(adj, s, h, ca, top);
    var c := ch + [ca, nb];
    forall i, k | 0 <= i < k < |c|
      ensures c[i] != c[k]
    {
      if k < |ch| {
        assert h.depth[ch[k]] < h.depth[ch[i]];
      } else if k == |ch| {
        assert h.depth[ca] < h.depth[ch[i]];
      } else {
        assert h.done[c[i]];
      }
    }
  }

  /** Each entry of the rebuilt cycle is adjacent to the next. */
  lemma LinkSteps(adj: seq<seq<nat>>, fix: bool, s: State, h: Ghosts, top: nat, nb: nat)
    requires Shape(adj) && LinkFacts(adj, fix, s, h, top, nb) && nb != top
    ensures var ca := s.anc[nb];
            var c := ChainTo(s.anc, h.depth, ca, top) + [ca, nb];
            && (forall i :: 0 <= i < |c| ==> c[i] < |adj|)
            && (forall i :: 0 <= i < |c| - 1 ==> c[i + 1] in adj[c[i]])
  {
    var ca := s.anc[nb];
    var ch := ChainTo(s.anc, h.depth, ca, top);
    ChainFacts(adj, s, h, ca, top);
    var c := ch + [ca, nb];
    forall i | 0 <= i < |c| - 1
      ensures c[i + 1] in adj[c[i]]
    {
      if i < |ch| {
        assert c[i + 1] == s.anc[ch[i]];
        Mutual(adj, s.anc[ch[i]], ch[i]);
      }
    }
  }

  /** A link to a vertex other than `top` closes a cycle: the chain from `top` down to the ancestor of `nb`,
      then that ancestor, then `nb`, which is adjacent to `top`. */
  lemma LinkCycle(adj: seq<seq<nat>>, fix: bool, s: State, h: Ghosts, top: nat, nb: nat)
    requires Shape(adj) && LinkFacts(adj, fix, s, h, top, nb) && nb != top
    ensures IsCycle(adj, ChainTo(s.anc, h.depth, s.anc[nb], top) + [s.anc[nb], nb])
  {
    var ca := s.anc[nb];
    var ch := ChainTo(s.anc, h.depth, ca, top);
    ChainFacts(adj, s, h, ca, top);
    LinkDistinct(adj, fix, s, h, top, nb);
    LinkSteps(adj, fix, s, h, top, nb);
    var c := ch + [ca, nb];
    Mutual(adj, top, nb);
    assert c[0] == top;
  }

  /** As written, a self-loop on a vertex `top` that is not a root is reported as `top`, its ancestor, `top`. */
  lemma EchoCycle(adj: seq<seq<nat>>, s: State, h: Ghosts, top: nat)
    requires Shape(adj) && LinkFacts(adj, false, s, h, top, top)
    ensures OnChain(s.anc, h.depth, s.anc[top], top)
    ensures ChainTo(s.anc, h.depth, s.anc[top], top) + [s.anc[top], top] == [top, s.anc[top], top]
    ensures SelfLoopEcho(adj, [top, s.anc[top], top])
  {
    var p := s.anc[top];
    assert OnChain(s.anc, h.depth, p, p);
    Mutual(adj, p, top);
  }

  /** The reconstruction: walk ancestor links from `top` to the ancestor of `nb`, then append that ancestor and
      `nb`. With the correction a self-loop on `top` is the cycle `[top]`. */
  method Reconstruct(adj: seq<seq<nat>>, fix: bool, s: State, ghost h: Ghosts, top: nat, nb: nat)
    returns (c: seq<nat>)
    requires Shape(adj) && LinkFacts(adj, fix, s, h, top, nb)
    ensures fix ==> IsCycle(adj, c)
    ensures !fix ==> (IsCycle(adj, c) && |c| >= 2) || SelfLoopEcho(adj, c)
  {
    if fix && nb == top {
      assert IsCycle(adj, [top]);
      return [top];
    }
    var ca: nat := s.anc[nb];
    if nb == top {
      EchoCycle(adj, s, h, top);
    } else {
      LinkCycle(adj, fix, s, h, top, nb);
    }
    c := WalkChain(s.anc, h.depth, ca, top);
    c := c + [ca, nb];
  }

  /** The `for` loop following ancestor links from `b` until `a`: it lists the chain from `b` up to, not
      including, `a`. */
  method WalkChain(anc: seq<nat>, ghost depth: seq<nat>, a: nat, b: nat) returns (c: seq<nat>)
    requires OnChain(anc, depth, a, b)
    ensures c == ChainTo(anc, depth, a, b)
  {
    var e: nat := b;
    c := [];
    while e != a
      invariant OnChain(anc, depth, a, e)
      invariant c + ChainTo(anc, depth, a, e) == ChainTo(anc, depth, a, b)
      decreases if e < |depth| then depth[e] else 0
    {
      ChainStep(anc, depth, a, e);
      Regroup(c, [e], ChainTo(anc, depth, a, anc[e]));
      c := c + [e];
      e := anc[e];
    }
  }

  /** One link of a chain that has not reached `a`: it leads to a shallower vertex still on the chain. */
  lemma ChainStep(anc: seq<nat>, depth: seq<nat>, a: nat, e: nat)
    requires OnChain(anc, depth, a, e) && e != a
    ensures e < |anc| && e < |depth| && anc[e] < |depth| && depth[anc[e]] < depth[e]
    ensures OnChain(anc, depth, a, anc[e])
    ensures ChainTo(anc, depth, a, e) == [e] + ChainTo(anc, depth, a, anc[e])
  {
  }

  // ----- the search -----

  /** One step of the `for` loop over the neighbours of `top`: the neighbour at index `j` is marked and pushed
      when unmarked, skipped when it is the ancestor of `top`, and otherwise returned as the link. */
  method Examine(adj: seq<seq<nat>>, fix: bool, s: State, ghost h: Ghosts, top: nat, j: nat)
    returns (s': State, link: Option<nat>, ghost h': Ghosts)
    requires Shape(adj) && Busy(adj, fix, s, h, top, j) && j < |adj[top]|
    ensures h'.done == h.done && |s'.marks| == |adj|
    ensures forall v :: 0 <= v < |adj| && s.marks[v] ==> s'.marks[v]
    ensures link.None? ==> Busy(adj, fix, s', h', top, j + 1)
    ensures link.Some? ==> LinkFacts(adj, fix, s', h', top, link.value)
  {
    var w := adj[top][j];
    assert w in adj[top];
    s', h', link := s, h, None;
    if !s.marks[w] {
      MarkStep(adj, fix, s, h, top, j);
      s' := Visit(s, w, top);
      h' := Deeper(h, w, top);
    } else if (fix && w == top) || s.anc[top] != w {
      LinkStep(adj, fix, s, h, top, j);
      link := Some(w);
    } else {
      SkipStep(adj, fix, s, h, top, j);
    }
  }

  /** One pass of the `while` loop: pop `top` and examine its neighbours in order, until one is returned as the
      link. When no link is found, every neighbour of `top` has been examined. */
  method Explore(adj: seq<seq<nat>>, fix: bool, s: State, ghost h: Ghosts)
    returns (s': State, link: Option<nat>, ghost h': Ghosts, top: nat)
    requires Shape(adj) && Idle(adj, fix, s, h) && s.stack != []
    ensures |h'.done| == |adj| && CountTrue(h.done) < CountTrue(h'.done)
    ensures |s'.marks| == |adj| && forall v :: 0 <= v < |adj| && s.marks[v] ==> s'.marks[v]
    ensures link.None? ==> Idle(adj, fix, s', h')
    ensures link.Some? ==> LinkFacts(adj, fix, s', h', top, link.value)
  {
    top := s.stack[|s.stack| - 1];
    PopStep(adj, fix, s, h);
    CountTrueSet(h.done, top);
    s' := s.(stack := s.stack[..|s.stack| - 1]);
    h' := h.(done := h.done[top := true]);
    link := None;
    var j := 0;
    while j < |adj[top]| && link.None?
      invariant j <= |adj[top]| && |s'.marks| == |adj|
      invariant h'.done == h.done[top := true]
      invariant forall v :: 0 <= v < |adj| && s.marks[v] ==> s'.marks[v]
      invariant link.None? ==> Busy(adj, fix, s', h', top, j)
      invariant link.Some? ==> LinkFacts(adj, fix, s', h', top, link.value)
    {
      s', link, h' := Examine(adj, fix, s', h', top, j);
      j := j + 1;
    }
    if link.None? {
      FinishStep(adj, fix, s', h', top);
    }
  }

  /** Nothing marked, nothing popped, the stack empty. */
  function Fresh(n: nat): (s: State)
    ensures |s.marks| == n && |s.anc| == n && s.stack == []
    ensures forall v :: 0 <= v < n ==> !s.marks[v]
  {
    State(seq(n, _ => false), seq(n, _ => 0), [])
  }

  lemma FreshIdle(adj: seq<seq<nat>>, fix: bool)
    ensures Idle(adj, fix, Fresh(|adj|), Ghosts(seq(|adj|, _ => 0), seq(|adj|, _ => false)))
  {
  }

  /** One search tree, grown from the unmarked vertex `r` until the stack is empty or a link closes a cycle. */
  method SearchTree(adj: seq<seq<nat>>, fix: bool, s: State, ghost h: Ghosts, r: nat)
    returns (s': State, link: Option<nat>, ghost h': Ghosts, top: nat)
    requires Shape(adj) && Idle(adj, fix, s, h) && s.stack == []
    requires r < |adj| && !s.marks[r]
    ensures |s'.marks| == |adj| && s'.marks[r] && forall v :: 0 <= v < |adj| && s.marks[v] ==> s'.marks[v]
    ensures link.None? ==> Idle(adj, fix, s', h') && s'.stack == []
    ensures link.Some? ==> LinkFacts(adj, fix, s', h', top, link.value)
  {
    RootStep(adj, fix, s, h, r);
    s' := Root(s, r);
    h' := h.(depth := h.depth[r := 0]);
    link := None;
    top := r;
    while s'.stack != [] && link.None?
      invariant |h'.done| == |adj| && |s'.marks| == |adj| && s'.marks[r]
      invariant forall v :: 0 <= v < |adj| && s.marks[v] ==> s'.marks[v]
      invariant link.None? ==> Idle(adj, fix, s', h')
      invariant link.Some? ==> LinkFacts(adj, fix, s', h', top, link.value)
      decreases |adj| - CountTrue(h'.done)
    {
      s', link, h', top := Explore(adj, fix, s', h');
    }
  }

  /** The `for` loop over every vertex in increasing order, each unmarked one starting a new search tree, until a
      link closes a cycle or every vertex is marked. */
  method SearchAll(adj: seq<seq<nat>>, fix: bool) returns (s: State, link: Option<nat>, ghost h: Ghosts, top: nat)
    requires Shape(adj)
    ensures link.None? ==> s.stack == [] && |s.marks| == |adj| && forall v :: 0 <= v < |adj| ==> s.marks[v]
    ensures link.None? ==> Idle(adj, fix, s, h)
    ensures link.Some? ==> LinkFacts(adj, fix, s, h, top, link.value)
  {
    s := Fresh(|adj|);
    h := Ghosts(seq(|adj|, _ => 0), seq(|adj|, _ => false));
    FreshIdle(adj, fix);
    link := None;
    top := 0;
    var vertex := 0;
    while vertex < |adj| && link.None?
      invariant vertex <= |adj|
      invariant link.None? ==> Idle(adj, fix, s, h) && s.stack == [] && forall v :: 0 <= v < vertex ==> s.marks[v]
      invariant link.Some? ==> LinkFacts(adj, fix, s, h, top, link.value)
    {
      ghost var before := s.marks;
      if !s.marks[vertex] {
        s, link, h, top := SearchTree(adj, fix, s, h, vertex);
      }
      MarkedUpTo(before, s.marks, vertex);
      vertex := vertex + 1;
    }
  }

  /** Marks are only added, so the vertices below `vertex` stay marked, and `vertex` itself is now marked. */
  lemma MarkedUpTo(before: seq<bool>, after: seq<bool>, vertex: nat)
    requires vertex < |before| == |after|
    requires forall v :: 0 <= v < vertex ==> before[v]
    requires forall v :: 0 <= v < |before| && before[v] ==> after[v]
    requires after[vertex]
    ensures forall v :: 0 <= v < vertex + 1 ==> after[v]
  {
  }

  /** `findCycle`, with `fix` selecting the corrected treatment of self-loops. A result is a cycle (as written,
      possibly the three-entry echo of a self-loop); no result means the graph is a forest, as written one whose
      roots may carry self-loops. */
  method FindCycleIn(adj: seq<seq<nat>>, fix: bool) returns (r: Option<seq<nat>>)
    requires Shape(adj)
    ensures r.Some? && fix ==> IsCycle(adj, r.value)
    ensures r.Some? && !fix ==> (IsCycle(adj, r.value) && |r.value| >= 2) || SelfLoopEcho(adj, r.value)
    ensures r.None? ==> IsForest(adj, !fix)
  {
    var s, link, h, top := SearchAll(adj, fix);
    if link.Some? {
      var c := Reconstruct(adj, fix, s, h, top, link.value);
      r := Some(c);
    } else {
      AllDoneForest(adj, fix, s, h);
      r := None;
    }
  }

  /** `findCycle` with self-loops treated as cycles of one vertex: it returns a cycle exactly when the graph has
      one. */
  method FindCycle(g: Graph) returns (r: Option<seq<nat>>)
    requires Valid(g)
    ensures r.Some? ==> IsCycle(Adj(g), r.value)
    ensures r.None? <==> forall c :: !IsCycle(Adj(g), c)
  {
    AdjShape(g);
    r := FindCycleIn(Adj(g), true);
    if r.None? {
      ghost var anc, depth :| Forest(Adj(g), false, anc, depth);
      ForestAcyclic(Adj(g), anc, depth);
    }
  }

  /** `findCycle` as written: a result is a cycle of two or more vertices or the echo `t, p, t` of a self-loop on
      a vertex `t` reached from `p`; no result means every cycle is a single self-loop. */
  method FindCycleAsWritten(g: Graph) returns (r: Option<seq<nat>>)
    requires Valid(g)
    ensures r.Some? ==> (IsCycle(Adj(g), r.value) && |r.value| >= 2) || SelfLoopEcho(Adj(g), r.value)
    ensures r.None? ==> IsForest(Adj(g), true)
    ensures r.None? ==> forall c :: IsCycle(Adj(g), c) ==> |c| == 1
  {
    AdjShape(g);
    r := FindCycleIn(Adj(g), false);
    if r.None? {
      ghost var anc, depth :| Forest(Adj(g), true, anc, depth);
      forall c | IsCycle(Adj(g), c)
        ensures |c| == 1
      {
        ForestCycles(Adj(g), true, anc, depth, c);
      }
    }
  }

  // ----- self-loops -----

  /** One vertex with a self-loop. */
  function LoopAt0(): (g: Graph)
    ensures Valid(g) && V(g) == 1 && 0 in Neighbors(g, 0)
  {
    AddEdge(List(ALUGraph.New(1)), 0, 0)
  }

  /** On a single vertex the only possible cycle is `[0]`. */
  lemma SingleVertexCycle(adj: seq<seq<nat>>, c: seq<nat>)
    requires |adj| == 1 && IsCycle(adj, c)
    ensures c == [0]
  {
    assert c[0] == 0;
  }

  /** On a single vertex no sequence is a self-loop echo. */
  lemma SingleVertexNoEcho(adj: seq<seq<nat>>)
    requires |adj| == 1
    ensures forall c :: !SelfLoopEcho(adj, c)
  {
  }

  /** A self-loop on the vertex where a search tree starts: as written it records the vertex as its own ancestor,
      takes the loop for the link to the ancestor and reports nothing, although `[0]` is a cycle; the correction
      reports `[0]`. */
  method RootSelfLoopMissed() returns (asWritten: Option<seq<nat>>, corrected: Option<seq<nat>>)
    ensures IsCycle(Adj(LoopAt0()), [0])
    ensures asWritten == None
    ensures corrected == Some([0])
  {
    var g := LoopAt0();
    assert IsCycle(Adj(g), [0]);
    forall c | IsCycle(Adj(g), c)
      ensures c == [0]
    {
      SingleVertexCycle(Adj(g), c);
    }
    SingleVertexNoEcho(Adj(g));
    asWritten := FindCycleAsWritten(g);
    corrected := FindCycle(g);
  }

  /** Two vertices joined by one edge, each with a self-loop. */
  function TwoLoops(): Graph
  {
    List(ALUGraph.AddEdge(ALUGraph.AddEdge(ALUGraph.AddEdge(ALUGraph.New(2), 0, 1), 0, 0), 1, 1))
  }

  lemma TwoLoopsCounts()
    ensures Valid(TwoLoops()) && V(TwoLoops()) == 2
    ensures Count(Neighbors(TwoLoops(), 0), 0) == 1 && Count(Neighbors(TwoLoops(), 1), 1) == 1
    ensures Count(Neighbors(TwoLoops(), 0), 1) == 1 && Count(Neighbors(TwoLoops(), 1), 0) == 1
  {
    var g2 := ALUGraph.AddEdge(ALUGraph.AddEdge(ALUGraph.New(2), 0, 1), 0, 0);
    LoopAtZeroCounts();
    forall x: nat, y: nat | x < 2
      ensures Count(Neighbors(TwoLoops(), x), y) == Count(ALUGraph.Neighbors(g2, x), y) + if x == 1 && y == 1 then 1 else 0
    {
      ALUGraph.AddEdgeNeighbors(g2, 1, 1, x, y);
    }
  }

  /** The edge `0 1` and then the self-loop at `0`. */
  lemma LoopAtZeroCounts()
    ensures forall x: nat, y: nat :: x < 2 ==>
      Count(ALUGraph.Neighbors(ALUGraph.AddEdge(ALUGraph.AddEdge(ALUGraph.New(2), 0, 1), 0, 0), x), y) ==
      (if x != y && y < 2 then 1 else 0) + (if x == 0 && y == 0 then 1 else 0)
  {
    var g1 := ALUGraph.AddEdge(ALUGraph.New(2), 0, 1);
    EdgeZeroOneCounts();
    forall x: nat, y: nat | x < 2
      ensures Count(ALUGraph.Neighbors(ALUGraph.AddEdge(g1, 0, 0), x), y) ==
              Count(ALUGraph.Neighbors(g1, x), y) + if x == 0 && y == 0 then 1 else 0
    {
      ALUGraph.AddEdgeNeighbors(g1, 0, 0, x, y);
    }
  }

  /** The edge `0 1` alone. */
  lemma EdgeZeroOneCounts()
    ensures forall x: nat, y: nat :: x < 2 ==>
      Count(ALUGraph.Neighbors(ALUGraph.AddEdge(ALUGraph.New(2), 0, 1), x), y) == if x != y && y < 2 then 1 else 0
  {
    var g0 := ALUGraph.New(2);
    forall x: nat, y: nat | x < 2
      ensures Count(ALUGraph.Neighbors(ALUGraph.AddEdge(g0, 0, 1), x), y) == if x != y && y < 2 then 1 else 0
    {
      ALUGraph.AddEdgeNeighbors(g0, 0, 1, x, y);
    }
  }

  /** In a forest a vertex with a self-loop is a root, and the ends of an edge are parent and child. */
  lemma ForestLinks(adj: seq<seq<nat>>, rootLoops: bool, anc: seq<nat>, depth: seq<nat>, v: nat, w: nat)
    requires v < |adj| && w < |adj|
    ensures Forest(adj, rootLoops, anc, depth) && Count(adj[v], v) > 0 ==> anc[v] == v
    ensures Forest(adj, rootLoops, anc, depth) && v != w && Count(adj[v], w) > 0 ==> anc[w] == v || anc[v] == w
  {
  }

  /** The first entries of a cycle are distinct vertices, each adjacent to the next. */
  lemma CycleStart(adj: seq<seq<nat>>, c: seq<nat>)
    requires IsCycle(adj, c)
    ensures |c| >= 2 ==> c[0] != c[1] && c[0] < |adj| && c[1] < |adj|
    ensures |c| >= 3 ==> c[2] < |adj| && c[2] != c[0] && c[2] != c[1]
  {
  }

  /** Two vertices, one edge between them: every cycle is a single self-loop. */
  lemma TwoVertexCycle(adj: seq<seq<nat>>, c: seq<nat>)
    requires |adj| == 2 && Count(adj[0], 1) == 1 && Count(adj[1], 0) == 1
    requires IsCycle(adj, c)
    ensures |c| == 1
  {
    CycleStart(adj, c);
  }

  /** Two vertices, one edge between them, a self-loop on each: no forest structure with self-loops on roots fits,
      since both loops make roots and the edge needs one end below the other. */
  lemma TwoLoopsNoForest(adj: seq<seq<nat>>, anc: seq<nat>, depth: seq<nat>)
    requires |adj| == 2 && Count(adj[0], 0) == 1 && Count(adj[1], 1) == 1 && Count(adj[0], 1) == 1
    ensures !Forest(adj, true, anc, depth)
  {
    ForestLinks(adj, true, anc, depth, 0, 1);
    ForestLinks(adj, true, anc, depth, 1, 1);
  }

  /** On two vertices the self-loop echoes are `[0, 1, 0]` and `[1, 0, 1]`. */
  lemma TwoVertexEcho(adj: seq<seq<nat>>, c: seq<nat>)
    requires |adj| == 2 && SelfLoopEcho(adj, c)
    ensures c == [0, 1, 0] || c == [1, 0, 1]
  {
  }

  /** What the demonstration needs about the graph with two looped vertices. */
  lemma TwoLoopsFacts()
    ensures Valid(TwoLoops())
    ensures !IsForest(Adj(TwoLoops()), true)
    ensures forall c :: IsCycle(Adj(TwoLoops()), c) ==> c == [0] || c == [1]
    ensures forall c :: SelfLoopEcho(Adj(TwoLoops()), c) ==> c == [0, 1, 0] || c == [1, 0, 1]
    ensures forall c :: SelfLoopEcho(Adj(TwoLoops()), c) ==> !IsCycle(Adj(TwoLoops()), c)
    ensures IsCycle(Adj(TwoLoops()), [0])
  {
    TwoLoopsCounts();
    TwoLoopsNotForest();
    TwoLoopsCycles();
    TwoLoopsEchoes();
    TwoLoopsEchoNotCycle();
    TwoLoopsLoop();
  }

  lemma TwoLoopsLoop()
    ensures IsCycle(Adj(TwoLoops()), [0])
  {
    TwoLoopsCounts();
    assert Count(Adj(TwoLoops())[0], 0) > 0;
  }

  lemma TwoLoopsEchoNotCycle()
    ensures forall c :: SelfLoopEcho(Adj(TwoLoops()), c) ==> !IsCycle(Adj(TwoLoops()), c)
  {
    TwoLoopsCycles();
    forall c | SelfLoopEcho(Adj(TwoLoops()), c)
      ensures !IsCycle(Adj(TwoLoops()), c)
    {
      assert |c| == 3;
    }
  }

  lemma TwoLoopsNotForest()
    ensures !IsForest(Adj(TwoLoops()), true)
  {
    TwoLoopsCounts();
    var adj := Adj(TwoLoops());
    forall anc, depth
      ensures !Forest(adj, true, anc, depth)
    {
      TwoLoopsNoForest(adj, anc, depth);
    }
  }

  lemma TwoLoopsCycles()
    ensures forall c :: IsCycle(Adj(TwoLoops()), c) ==> c == [0] || c == [1]
  {
    TwoLoopsCounts();
    var adj := Adj(TwoLoops());
    forall c | IsCycle(adj, c)
      ensures c == [0] || c == [1]
    {
      TwoVertexCycle(adj, c);
      assert c == [c[0]];
    }
  }

  lemma TwoLoopsEchoes()
    ensures forall c :: SelfLoopEcho(Adj(TwoLoops()), c) ==> c == [0, 1, 0] || c == [1, 0, 1]
  {
    TwoLoopsCounts();
    var adj := Adj(TwoLoops());
    forall c | SelfLoopEcho(adj, c)
      ensures c == [0, 1, 0] || c == [1, 0, 1]
    {
      TwoVertexEcho(adj, c);
    }
  }

  /** A self-loop on a vertex reached from another: as written the search reports three entries, a vertex, its
      ancestor and the vertex again, which is not a cycle; the correction reports a one-vertex cycle. */
  method NonRootSelfLoopEcho() returns (asWritten: Option<seq<nat>>, corrected: Option<seq<nat>>)
    ensures asWritten.Some? && !IsCycle(Adj(TwoLoops()), asWritten.value)
    ensures asWritten.value == [0, 1, 0] || asWritten.value == [1, 0, 1]
    ensures corrected == Some([0]) || corrected == Some([1])
  {
    asWritten := TwoLoopsAsWritten();
    corrected := TwoLoopsCorrected();
  }

  method TwoLoopsAsWritten() returns (r: Option<seq<nat>>)
    ensures r.Some? && !IsCycle(Adj(TwoLoops()), r.value)
    ensures r.value == [0, 1, 0] || r.value == [1, 0, 1]
  {
    TwoLoopsFacts();
    r := FindCycleAsWritten(TwoLoops());
  }

  method TwoLoopsCorrected() returns (r: Option<seq<nat>>)
    ensures r == Some([0]) || r == Some([1])
  {
    TwoLoopsFacts();
    r := FindCycle(TwoLoops());
  }
}
