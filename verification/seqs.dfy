/** Facts about sequences of vertex ids that the graph stores and the algorithms share. */
module Seqs {

  /** A value that may be absent. */
  datatype Option<T> = None | Some(value: T)

  /** Number of occurrences of `x` in `s`. */
  function Count(s: seq<nat>, x: nat): nat
  {
    multiset(s)[x]
  }

  /** Occurrences add up over a concatenation. */
  lemma CountAppend(a: seq<nat>, b: seq<nat>, x: nat)
    ensures Count(a + b, x) == Count(a, x) + Count(b, x)
  {
    assert multiset(a + b) == multiset(a) + multiset(b);
  }

  /** `a` is obtained from `b` by deleting entries, keeping the order of the rest. */
  predicate IsSubsequence(a: seq<nat>, b: seq<nat>)
    decreases |b|
  {
    if a == [] then true
    else if b == [] then false
    else if a[0] == b[0] then IsSubsequence(a[1..], b[1..])
    else IsSubsequence(a, b[1..])
  }

  /** The entries of `s` other than `x`, in their order in `s`. */
  function Without(s: seq<nat>, x: nat): (r: seq<nat>)
    ensures x !in r
    ensures forall y: nat :: y != x ==> Count(r, y) == Count(s, y)
  {
    if s == [] then []
    else
      var rest := Without(s[1..], x);
      CountCons(s);
      CountAppendAll(if s[0] == x then [] else [s[0]], rest);
      (if s[0] == x then [] else [s[0]]) + rest
  }

  /** The entries of `s` that are at least `lo`, in their order in `s`. */
  function AtLeast(s: seq<nat>, lo: nat): (r: seq<nat>)
    ensures forall y: nat :: Count(r, y) == if y >= lo then Count(s, y) else 0
    ensures IsSubsequence(r, s)
  {
    if s == [] then []
    else
      var rest := AtLeast(s[1..], lo);
      CountCons(s);
      if s[0] >= lo then
        CountAppendAll([s[0]], rest);
        assert ([s[0]] + rest)[1..] == rest;
        [s[0]] + rest
      else
        SubsequenceOfTail(rest, s);
        rest
  }

  /** Occurrences in a non-empty sequence: the first entry plus those of the rest. */
  lemma CountCons(s: seq<nat>)
    requires s != []
    ensures forall y: nat :: Count(s, y) == (if s[0] == y then 1 else 0) + Count(s[1..], y)
  {
    assert s == [s[0]] + s[1..];
    assert multiset(s) == multiset{s[0]} + multiset(s[1..]);
  }

  /** Concatenation regroups. */
  lemma Regroup(a: seq<nat>, b: seq<nat>, c: seq<nat>)
    ensures (a + b) + c == a + (b + c)
  {
  }

  /** Occurrences of one value in a non-empty sequence: the first entry plus those of the rest. */
  lemma CountHead(s: seq<nat>, y: nat)
    requires s != []
    ensures Count(s, y) == (if s[0] == y then 1 else 0) + Count(s[1..], y)
  {
    assert s == [s[0]] + s[1..];
    CountAppend([s[0]], s[1..], y);
  }

  /** Occurrences add up over a concatenation, for every vertex. */
  lemma CountAppendAll(a: seq<nat>, b: seq<nat>)
    ensures forall y: nat :: Count(a + b, y) == Count(a, y) + Count(b, y)
  {
    assert multiset(a + b) == multiset(a) + multiset(b);
  }

  /** No vertex occurs twice in `s`. */
  predicate NoDup(s: seq<nat>)
  {
    forall i, j :: 0 <= i < j < |s| ==> s[i] != s[j]
  }

  /** The entries of `s` strictly increase from left to right. */
  predicate StrictlyIncreasing(s: seq<nat>)
  {
    forall i, j :: 0 <= i < j < |s| ==> s[i] < s[j]
  }

  /** Dropping the first entry of the longer sequence keeps a subsequence a subsequence. */
  lemma SubsequenceOfTail(a: seq<nat>, b: seq<nat>)
    requires b != []
    requires IsSubsequence(a, b[1..])
    ensures IsSubsequence(a, b)
    decreases |b|
  {
    if a != [] && a[0] == b[0] {
      SubsequenceDropFirst(a, b[1..]);
    }
  }

  /** A subsequence stays one when its own first entry is dropped. */
  lemma {:induction false} SubsequenceDropFirst(a: seq<nat>, b: seq<nat>)
    requires a != []
    requires IsSubsequence(a, b)
    ensures IsSubsequence(a[1..], b)
    decreases |b|
  {
    var x := a[1..];
    if a[0] == b[0] {
      assert IsSubsequence(x, b[1..]);
    } else {
      SubsequenceDropFirst(a, b[1..]);
    }
    if x != [] && x[0] == b[0] {
      SubsequenceDropFirst(x, b[1..]);
    }
  }

  /** Every entry of a subsequence is an entry of the sequence it was taken from. */
  lemma {:induction false} SubsequenceMembers(a: seq<nat>, b: seq<nat>)
    requires IsSubsequence(a, b)
    ensures forall x :: x in a ==> x in b
    decreases |b|
  {
    if a != [] {
      if a[0] == b[0] {
        SubsequenceMembers(a[1..], b[1..]);
        assert a == [a[0]] + a[1..];
      } else {
        SubsequenceMembers(a, b[1..]);
      }
    }
  }

  /** A subsequence of a strictly increasing sequence is strictly increasing. */
  lemma {:induction false} SubsequenceIncreasing(a: seq<nat>, b: seq<nat>)
    requires IsSubsequence(a, b)
    requires StrictlyIncreasing(b)
    ensures StrictlyIncreasing(a)
    decreases |b|
  {
    if a != [] {
      assert StrictlyIncreasing(b[1..]);
      if a[0] == b[0] {
        SubsequenceIncreasing(a[1..], b[1..]);
        SubsequenceMembers(a[1..], b[1..]);
        forall j | 0 < j < |a|
          ensures a[0] < a[j]
        {
          assert a[j] == a[1..][j - 1];
          assert a[j] in b[1..];
        }
      } else {
        SubsequenceIncreasing(a, b[1..]);
      }
    }
  }

  /** Sequences with no repeated entry hold each entry exactly once. */
  lemma {:induction false} NoDupCounts(s: seq<nat>)
    requires NoDup(s)
    ensures forall x: nat :: x in s ==> Count(s, x) == 1
  {
    if s != [] {
      assert s == [s[0]] + s[1..];
      assert NoDup(s[1..]);
      NoDupCounts(s[1..]);
      assert s[0] !in s[1..];
    }
  }

  /** Keeping the entries at least `lo` distributes over a concatenation. */
  lemma {:induction false} AtLeastAppend(a: seq<nat>, b: seq<nat>, lo: nat)
    ensures AtLeast(a + b, lo) == AtLeast(a, lo) + AtLeast(b, lo)
  {
    if a != [] {
      assert (a + b)[1..] == a[1..] + b;
      AtLeastAppend(a[1..], b, lo);
    } else {
      assert a + b == b;
    }
  }

  /** Keeping the entries at least `lo` changes nothing when every entry is. */
  lemma {:induction false} AtLeastAll(s: seq<nat>, lo: nat)
    requires forall k :: 0 <= k < |s| ==> lo <= s[k]
    ensures AtLeast(s, lo) == s
  {
    if s != [] {
      AtLeastAll(s[1..], lo);
    }
  }

  /** Number of `true` entries of `row`. */
  function CountTrue(row: seq<bool>): (n: nat)
    ensures n <= |row|
  {
    if row == [] then 0 else (if row[0] then 1 else 0) + CountTrue(row[1..])
  }

  /** A row with no `true` entry counts none. */
  lemma {:induction false} CountTrueNone(row: seq<bool>)
    requires forall k :: 0 <= k < |row| ==> !row[k]
    ensures CountTrue(row) == 0
  {
    if row != [] {
      CountTrueNone(row[1..]);
    }
  }

  /** Setting entry `c` adds one `true` entry when it was `false`. */
  lemma {:induction false} CountTrueSet(row: seq<bool>, c: nat)
    requires c < |row|
    ensures CountTrue(row[c := true]) == CountTrue(row) + (if row[c] then 0 else 1)
  {
    if c > 0 {
      CountTrueSet(row[1..], c - 1);
      assert row[c := true][1..] == row[1..][c - 1 := true];
    }
  }
}
