/** The textual edge-list format shared by every graph store (the vertex count, the edge count, then one `v w` pair per
    edge), the self-loop collapsing of an adjacency list's neighbour view, and the pair emission of `toInputString`.
    Text is modelled as its sequence of numeric tokens; field widths, separators and stream states are not modelled. */
module EdgeList {
  import opened Seqs

  /** One `v w` line of the edge-list text: an undirected edge between `v` and `w`. */
  datatype Edge = Edge(v: nat, w: nat)

  /** Tokens a stream constructor can consume: at least the two header numbers and as many pairs as the second one
      announces, every vertex id of those pairs below the first one. The constructors never check their stream, so
      this is what they demand of their callers. */
  predicate WellFormedInput(t: seq<nat>)
  {
    && |t| >= 2
    && |t| >= 2 + 2 * t[1]
    && forall i :: 2 <= i < 2 + 2 * t[1] ==> t[i] < t[0]
  }

  /** The first `count` pairs of the token sequence `t`, in input order. */
  function ReadPairs(t: seq<nat>, count: nat): (r: seq<Edge>)
    requires |t| >= 2 * count
    ensures |r| == count
    ensures forall k :: 0 <= k < count ==> r[k] == Edge(t[2 * k], t[2 * k + 1])
    decreases count
  {
    if count == 0 then []
    else
      var rest := ReadPairs(t[2..], count - 1);
      assert forall k :: 1 <= k < count ==> ([Edge(t[0], t[1])] + rest)[k] == rest[k - 1];
      [Edge(t[0], t[1])] + rest
  }

  /** The pairs of a well-formed input, with their ids in range. */
  function InputPairs(t: seq<nat>): (r: seq<Edge>)
    requires WellFormedInput(t)
    ensures |r| == t[1]
    ensures forall k :: 0 <= k < |r| ==> r[k].v < t[0] && r[k].w < t[0]
  {
    var r := ReadPairs(t[2..], t[1]);
    assert forall k :: 0 <= k < |r| ==> r[k] == Edge(t[2 + 2 * k], t[2 + 2 * k + 1]);
    r
  }

  /** The tokens of the pairs `P`, each pair as its two ids, in order. */
  function Flatten(P: seq<Edge>): (r: seq<nat>)
    ensures |r| == 2 * |P|
    ensures forall k :: 0 <= k < |P| ==> r[2 * k] == P[k].v && r[2 * k + 1] == P[k].w
  {
    if P == [] then []
    else
      var rest := Flatten(P[1..]);
      assert forall k :: 1 <= k < |P| ==> P[k] == P[1..][k - 1];
      [P[0].v, P[0].w] + rest
  }

  /** The text `toInputString` writes: the vertex count, the edge-count header, then the pairs. */
  function InputText(vertexCount: nat, edgeCount: nat, P: seq<Edge>): seq<nat>
  {
    [vertexCount, edgeCount] + Flatten(P)
  }

  /** Every id of the pairs `P` is below `n`. */
  predicate PairsInRange(P: seq<Edge>, n: nat)
  {
    forall k :: 0 <= k < |P| ==> P[k].v < n && P[k].w < n
  }

  /** Written text can be read back exactly when its header announces no more pairs than are listed; when the header
      counts the pairs listed, the reader gets back the very pairs that were written. */
  lemma InputTextReadBack(n: nat, e: nat, P: seq<Edge>)
    requires PairsInRange(P, n)
    ensures WellFormedInput(InputText(n, e, P)) <==> e <= |P|
    ensures e == |P| ==> WellFormedInput(InputText(n, e, P)) && InputPairs(InputText(n, e, P)) == P
  {
    var t := InputText(n, e, P);
    var f := Flatten(P);
    assert t[2..] == f;
    if e <= |P| {
      forall i | 2 <= i < 2 + 2 * e
        ensures t[i] < n
      {
        var k := (i - 2) / 2;
        assert k < |P|;
        assert t[i] == f[i - 2];
        if (i - 2) % 2 == 0 {
          assert i - 2 == 2 * k;
          assert f[2 * k] == P[k].v;
        } else {
          assert i - 2 == 2 * k + 1;
          assert f[2 * k + 1] == P[k].w;
        }
      }
    }
    if e == |P| {
      var r := InputPairs(t);
      assert forall k :: 0 <= k < |P| ==> r[k] == Edge(f[2 * k], f[2 * k + 1]);
    }
  }

  /** Occurrences of the pair `v w` (in that orientation) among the pairs `P`. */
  function PairCount(P: seq<Edge>, v: nat, w: nat): nat
  {
    multiset(P)[Edge(v, w)]
  }

  // ----- the neighbour view of a stored adjacency list -----

  /** The neighbour view of the stored list `l` of vertex `v`: entries other than `v` are kept in order and, since a
      self-loop is stored twice, only every second stored copy of `v` is kept. `seen` records that an odd number of
      copies of `v` has gone by. */
  function CollapseSelfLoops(l: seq<nat>, v: nat, seen: bool): seq<nat>
  {
    if l == [] then []
    else if l[0] == v then
      (if seen then [v] else []) + CollapseSelfLoops(l[1..], v, !seen)
    else
      [l[0]] + CollapseSelfLoops(l[1..], v, seen)
  }

  /** The view is a subsequence of the stored list. */
  lemma {:induction false} CollapseSelfLoopsSubsequence(l: seq<nat>, v: nat, seen: bool)
    ensures IsSubsequence(CollapseSelfLoops(l, v, seen), l)
  {
    if l != [] {
      var r := CollapseSelfLoops(l, v, seen);
      if l[0] == v {
        var rest := CollapseSelfLoops(l[1..], v, !seen);
        CollapseSelfLoopsSubsequence(l[1..], v, !seen);
        if seen {
          assert r == [v] + rest;
          assert r[1..] == rest;
        } else {
          assert r == rest;
          SubsequenceOfTail(rest, l);
        }
      } else {
        var rest := CollapseSelfLoops(l[1..], v, seen);
        CollapseSelfLoopsSubsequence(l[1..], v, seen);
        assert r == [l[0]] + rest;
        assert r[1..] == rest;
      }
    }
  }

  /** The view keeps every entry other than `v`, in stored order. */
  lemma {:induction false} CollapseSelfLoopsKeepsOthers(l: seq<nat>, v: nat, seen: bool)
    ensures Without(CollapseSelfLoops(l, v, seen), v) == Without(l, v)
  {
    if l != [] {
      var r := CollapseSelfLoops(l, v, seen);
      if l[0] == v {
        var rest := CollapseSelfLoops(l[1..], v, !seen);
        CollapseSelfLoopsKeepsOthers(l[1..], v, !seen);
        if seen {
          assert r == [v] + rest;
          assert Without(r, v) == Without(rest, v);
        } else {
          assert r == rest;
        }
      } else {
        var rest := CollapseSelfLoops(l[1..], v, seen);
        CollapseSelfLoopsKeepsOthers(l[1..], v, seen);
        assert r == [l[0]] + rest;
        assert r[1..] == rest;
      }
    }
  }

  /** One more copy, with a pending copy or not, halves to one more kept copy exactly when one was pending. */
  lemma HalfStep(n: nat, seen: bool)
    ensures (n + 1 + (if seen then 1 else 0)) / 2 == (if seen then 1 else 0) + (n + (if seen then 0 else 1)) / 2
  {
  }

  /** The view halves the stored copies of `v`: rounding down, or up when a copy is pending. */
  lemma {:induction false} CollapseSelfLoopsHalves(l: seq<nat>, v: nat, seen: bool)
    ensures Count(CollapseSelfLoops(l, v, seen), v) == (Count(l, v) + (if seen then 1 else 0)) / 2
  {
    if l != [] {
      CountHead(l, v);
      var r := CollapseSelfLoops(l, v, seen);
      if l[0] == v {
        var rest := CollapseSelfLoops(l[1..], v, !seen);
        CollapseSelfLoopsHalves(l[1..], v, !seen);
        CountAppend(if seen then [v] else [], rest, v);
        HalfStep(Count(l[1..], v), seen);
      } else {
        var rest := CollapseSelfLoops(l[1..], v, seen);
        CollapseSelfLoopsHalves(l[1..], v, seen);
        CountAppend([l[0]], rest, v);
      }
    }
  }

  /** Entries other than `v` occur in the view as often as in the stored list. */
  lemma CollapseSelfLoopsCounts(l: seq<nat>, v: nat, seen: bool)
    ensures forall y :: y != v ==> Count(CollapseSelfLoops(l, v, seen), y) == Count(l, y)
  {
    CollapseSelfLoopsKeepsOthers(l, v, seen);
    var r := CollapseSelfLoops(l, v, seen);
    forall y | y != v
      ensures Count(r, y) == Count(l, y)
    {
      assert Count(Without(r, v), y) == Count(r, y);
      assert Count(Without(l, v), y) == Count(l, y);
    }
  }

  // ----- the pairs `toInputString` writes -----

  /** Second ids of the pairs `toInputString` writes for vertex `i` from its neighbour view, as written: a neighbour
      above `i` is written, one below `i` is skipped, and a copy of `i` itself is written only at every second
      occurrence in the view. */
  function WrittenTargets(view: seq<nat>, i: nat, seen: bool): seq<nat>
  {
    if view == [] then []
    else if view[0] == i then
      (if seen then [i] else []) + WrittenTargets(view[1..], i, !seen)
    else if view[0] > i then
      [view[0]] + WrittenTargets(view[1..], i, seen)
    else
      WrittenTargets(view[1..], i, seen)
  }

  /** As written, a neighbour `y` above `i` is written once per occurrence in the view, none below `i`, and the
      copies of `i` are halved. */
  lemma {:induction false} WrittenTargetsCount(view: seq<nat>, i: nat, seen: bool, y: nat)
    ensures Count(WrittenTargets(view, i, seen), y) ==
      (if y > i then Count(view, y)
       else if y == i then (Count(view, i) + (if seen then 1 else 0)) / 2
       else 0)
  {
    if view != [] {
      var seen' := if view[0] == i then !seen else seen;
      WrittenTargetsCount(view[1..], i, seen', y);
      WrittenTargetsHead(view, i, seen, y);
      CountHead(view, y);
      if view[0] == i && y == i {
        HalfStep(Count(view[1..], i), seen);
      }
    }
  }

  /** The first entry of the view contributes a written copy of `y` when it is `y` above `i`, or the pending copy of
      `i` itself. */
  lemma WrittenTargetsHead(view: seq<nat>, i: nat, seen: bool, y: nat)
    requires view != []
    ensures Count(WrittenTargets(view, i, seen), y) ==
      (if view[0] == y && (y > i || (y == i && seen)) then 1 else 0) +
      Count(WrittenTargets(view[1..], i, if view[0] == i then !seen else seen), y)
  {
    if view[0] == i {
      CountAppend(if seen then [i] else [], WrittenTargets(view[1..], i, !seen), y);
    } else if view[0] > i {
      CountAppend([view[0]], WrittenTargets(view[1..], i, seen), y);
    }
  }

  /** The written row is never longer than the neighbours at or above `i`, and shorter when `i` is among them. */
  lemma {:induction false} WrittenTargetsLength(view: seq<nat>, i: nat, seen: bool)
    ensures |WrittenTargets(view, i, seen)| <= |AtLeast(view, i)|
    ensures !seen && i in view ==> |WrittenTargets(view, i, seen)| < |AtLeast(view, i)|
  {
    if view != [] {
      assert view == [view[0]] + view[1..];
      if view[0] == i {
        WrittenTargetsLength(view[1..], i, !seen);
      } else {
        WrittenTargetsLength(view[1..], i, seen);
        assert i in view ==> i in view[1..];
      }
    }
  }

  /** For a vertex with no self-loop in its view the written pairs are exactly the neighbours at or above it. */
  lemma {:induction false} WrittenTargetsWithoutLoop(view: seq<nat>, i: nat, seen: bool)
    requires i !in view
    ensures WrittenTargets(view, i, seen) == AtLeast(view, i)
  {
    if view != [] {
      assert view == [view[0]] + view[1..];
      WrittenTargetsWithoutLoop(view[1..], i, seen);
    }
  }

  /** Second ids of the pairs written for vertex `i`: as written, or (`fixed`) every neighbour at or above `i`,
      a self-loop once per occurrence in the view. */
  function Targets(view: seq<nat>, i: nat, fixed: bool): seq<nat>
  {
    if fixed then AtLeast(view, i) else WrittenTargets(view, i, false)
  }

  /** The pairs `i t` for each `t` of `targets`, in order. */
  function RowPairs(i: nat, targets: seq<nat>): (r: seq<Edge>)
    ensures |r| == |targets|
  {
    if targets == [] then [] else [Edge(i, targets[0])] + RowPairs(i, targets[1..])
  }

  /** Entry `k` of the row is the pair `i targets[k]`. */
  lemma {:induction false} RowPairsAt(i: nat, targets: seq<nat>)
    ensures forall k :: 0 <= k < |targets| ==> RowPairs(i, targets)[k] == Edge(i, targets[k])
  {
    if targets != [] {
      RowPairsAt(i, targets[1..]);
      var rest := RowPairs(i, targets[1..]);
      assert forall k :: 1 <= k < |targets| ==> RowPairs(i, targets)[k] == rest[k - 1];
    }
  }

  /** A row holds the pair `a b` once per occurrence of `b` in the targets when `a` is the row's vertex. */
  lemma {:induction false} RowPairsCount(i: nat, targets: seq<nat>, a: nat, b: nat)
    ensures PairCount(RowPairs(i, targets), a, b) == if a == i then Count(targets, b) else 0
  {
    if targets != [] {
      RowPairsCount(i, targets[1..], a, b);
      CountHead(targets, b);
      var rest := RowPairs(i, targets[1..]);
      assert RowPairs(i, targets) == [Edge(i, targets[0])] + rest;
      assert multiset(RowPairs(i, targets)) == multiset{Edge(i, targets[0])} + multiset(rest);
    }
  }

  /** The pairs `toInputString` writes for the vertices `i`, `i + 1`, ... whose neighbour views are `views`: as
      written, or with the `fixed` row emission. */
  function Serialize(views: seq<seq<nat>>, i: nat, fixed: bool): seq<Edge>
    decreases |views| - i
  {
    if i >= |views| then []
    else RowPairs(i, Targets(views[i], i, fixed)) + Serialize(views, i + 1, fixed)
  }

  /** Pair occurrences add up over a concatenation. */
  lemma PairCountAppend(P: seq<Edge>, Q: seq<Edge>, a: nat, b: nat)
    ensures PairCount(P + Q, a, b) == PairCount(P, a, b) + PairCount(Q, a, b)
  {
    assert multiset(P + Q) == multiset(P) + multiset(Q);
  }

  /** The rows `rows[i]`, `rows[i + 1]`, ... written one after another. */
  function Concat(rows: seq<seq<Edge>>, i: nat): seq<Edge>
    decreases |rows| - i
  {
    if i >= |rows| then [] else rows[i] + Concat(rows, i + 1)
  }

  /** The rows `Serialize` writes, one per vertex. */
  function RowsOf(views: seq<seq<nat>>, fixed: bool): (rows: seq<seq<Edge>>)
    ensures |rows| == |views|
    ensures forall k :: 0 <= k < |views| ==> rows[k] == RowPairs(k, Targets(views[k], k, fixed))
  {
    seq(|views|, k requires 0 <= k < |views| => RowPairs(k, Targets(views[k], k, fixed)))
  }

  /** Serialising from `i` on writes the rows of the vertices from `i` on. */
  lemma {:induction false} SerializeConcat(views: seq<seq<nat>>, i: nat, fixed: bool)
    ensures Serialize(views, i, fixed) == Concat(RowsOf(views, fixed), i)
    decreases |views| - i
  {
    if i < |views| {
      SerializeConcat(views, i + 1, fixed);
    }
  }

  /** When only row `a` may hold the pair `a b`, the rows from `i` on hold it as often as row `a` does if they
      include it, and not at all otherwise. */
  lemma {:induction false} ConcatCount(rows: seq<seq<Edge>>, i: nat, a: nat, b: nat)
    requires forall k :: 0 <= k < |rows| && k != a ==> PairCount(rows[k], a, b) == 0
    ensures PairCount(Concat(rows, i), a, b) == if i <= a < |rows| then PairCount(rows[a], a, b) else 0
    decreases |rows| - i
  {
    if i < |rows| {
      ConcatCount(rows, i + 1, a, b);
      PairCountAppend(rows[i], Concat(rows, i + 1), a, b);
    }
  }

  /** Each pair `a b` is written as often as `b` occurs in the row of `a`, for the vertices `a` serialised. */
  lemma SerializeCount(views: seq<seq<nat>>, i: nat, fixed: bool, a: nat, b: nat)
    ensures i <= a < |views| ==> PairCount(Serialize(views, i, fixed), a, b) == Count(Targets(views[a], a, fixed), b)
    ensures !(i <= a < |views|) ==> PairCount(Serialize(views, i, fixed), a, b) == 0
  {
    var rows := RowsOf(views, fixed);
    forall k | 0 <= k < |rows| && k != a
      ensures PairCount(rows[k], a, b) == 0
    {
      RowPairsCount(k, Targets(views[k], k, fixed), a, b);
    }
    SerializeConcat(views, i, fixed);
    ConcatCount(rows, i, a, b);
    if i <= a < |views| {
      RowPairsCount(a, Targets(views[a], a, fixed), a, b);
    }
  }

  /** Every written target of vertex `i` is at least `i`. */
  lemma TargetsAtLeast(view: seq<nat>, i: nat, fixed: bool)
    ensures forall k :: 0 <= k < |Targets(view, i, fixed)| ==> i <= Targets(view, i, fixed)[k]
  {
    var ts := Targets(view, i, fixed);
    forall k | 0 <= k < |ts|
      ensures i <= ts[k]
    {
      var y := ts[k];
      assert y in ts;
      assert Count(ts, y) > 0;
      if !fixed {
        WrittenTargetsCount(view, i, false, y);
      }
    }
  }

  /** Every written pair has its smaller id first, the first ids are those of the serialised vertices, and the pairs
      come in ascending order of their first id. */
  lemma {:induction false} SerializeOrder(views: seq<seq<nat>>, i: nat, fixed: bool)
    ensures forall k :: 0 <= k < |Serialize(views, i, fixed)| ==>
      i <= Serialize(views, i, fixed)[k].v < |views| && Serialize(views, i, fixed)[k].v <= Serialize(views, i, fixed)[k].w
    ensures forall k, l :: 0 <= k < l < |Serialize(views, i, fixed)| ==>
      Serialize(views, i, fixed)[k].v <= Serialize(views, i, fixed)[l].v
    decreases |views| - i
  {
    if i < |views| {
      var ts := Targets(views[i], i, fixed);
      var row := RowPairs(i, ts);
      var rest := Serialize(views, i + 1, fixed);
      var r := row + rest;
      assert Serialize(views, i, fixed) == r;
      SerializeOrder(views, i + 1, fixed);
      TargetsAtLeast(views[i], i, fixed);
      RowPairsAt(i, ts);
      assert forall k :: 0 <= k < |row| ==> r[k] == row[k] && r[k].v == i && i <= r[k].w;
      assert forall k :: |row| <= k < |r| ==> r[k] == rest[k - |row|] && i < r[k].v;
    }
  }

  /** Written pairs never outnumber the fixed ones, and are fewer as soon as one vertex has a self-loop in its view;
      with no self-loop anywhere the two emissions coincide. */
  lemma {:induction false} SerializeWrittenVsFixed(views: seq<seq<nat>>, i: nat)
    ensures |Serialize(views, i, false)| <= |Serialize(views, i, true)|
    ensures (exists a :: i <= a < |views| && a in views[a]) ==>
      |Serialize(views, i, false)| < |Serialize(views, i, true)|
    ensures (forall a :: i <= a < |views| ==> a !in views[a]) ==>
      Serialize(views, i, false) == Serialize(views, i, true)
    decreases |views| - i
  {
    if i < |views| {
      SerializeWrittenVsFixed(views, i + 1);
      WrittenTargetsLength(views[i], i, false);
      if i !in views[i] {
        WrittenTargetsWithoutLoop(views[i], i, false);
      }
    }
  }

  /** When every row's targets strictly increase, the fixed emission is strictly ascending: by first id, then by
      second id. */
  lemma {:induction false} SerializeSorted(views: seq<seq<nat>>, i: nat)
    requires forall a :: i <= a < |views| ==> StrictlyIncreasing(Targets(views[a], a, true))
    ensures forall k, l :: 0 <= k < l < |Serialize(views, i, true)| ==>
      var p, q := Serialize(views, i, true)[k], Serialize(views, i, true)[l];
      p.v < q.v || (p.v == q.v && p.w < q.w)
    decreases |views| - i
  {
    if i < |views| {
      var ts := Targets(views[i], i, true);
      var row := RowPairs(i, ts);
      var rest := Serialize(views, i + 1, true);
      var r := row + rest;
      assert Serialize(views, i, true) == r;
      SerializeSorted(views, i + 1);
      SerializeOrder(views, i + 1, true);
      RowPairsAt(i, ts);
      forall k, l | 0 <= k < l < |r|
        ensures r[k].v < r[l].v || (r[k].v == r[l].v && r[k].w < r[l].w)
      {
        if l < |row| {
          assert r[k] == row[k] && r[l] == row[l];
        } else if k < |row| {
          assert r[k] == row[k] && r[l] == rest[l - |row|];
        } else {
          assert r[k] == rest[k - |row|] && r[l] == rest[l - |row|];
        }
      }
    }
  }
}
