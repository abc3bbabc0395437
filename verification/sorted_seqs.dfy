/** Reference definitions for sorting sequences of integers: ascending order, insertion at the
    leftmost admissible position, a reference insertion sort, and index permutations. */
module SortedSeqs {

  predicate Sorted(s: seq<int>) {
    forall i, j | 0 <= i < j < |s| :: s[i] <= s[j]
  }

  /** Linear reference for inserting `x` into an ascending sequence: `x` goes before the first
      element that is not smaller than it. */
  function SortedInsert(s: seq<int>, x: int): (r: seq<int>)
    ensures |r| == |s| + 1
    ensures multiset(r) == multiset(s) + multiset{x}
    ensures Sorted(s) ==> Sorted(r)
  {
    if |s| == 0 || x <= s[0] then [x] + s
    else
      assert s == [s[0]] + s[1..];
      var t := SortedInsert(s[1..], x);
      assert Sorted(s) ==> Sorted([s[0]] + t) by {
        if Sorted(s) {
          ConsBelowInsert(s, x, t);
        }
      }
      [s[0]] + t
  }

  /** Putting the head of an ascending sequence back in front of its tail with `x` inserted,
      where `x` is above the head, keeps the order. */
  lemma ConsBelowInsert(s: seq<int>, x: int, t: seq<int>)
    requires Sorted(s) && |s| > 0 && s[0] < x
    requires Sorted(t) && multiset(t) == multiset(s[1..]) + multiset{x}
    ensures Sorted([s[0]] + t)
  {
    forall k | 0 <= k < |t|
      ensures s[0] <= t[k]
    {
      assert t[k] in multiset(t);
      if t[k] != x {
        assert t[k] in s[1..];
      }
    }
  }

  /** The first element of an ascending sequence is its least. */
  lemma HeadIsLeast(s: seq<int>, v: int)
    requires Sorted(s)
    requires v in multiset(s)
    ensures s[0] <= v
  {
    assert v in s;
  }

  /** Inserting at a position `p` with everything before it smaller than `x` and everything from
      it on at least `x` is the reference insertion. */
  lemma {:induction false} InsertAtLowerBound(s: seq<int>, x: int, p: nat)
    requires p <= |s|
    requires forall k | 0 <= k < p :: s[k] < x
    requires forall k | p <= k < |s| :: x <= s[k]
    ensures s[..p] + [x] + s[p..] == SortedInsert(s, x)
  {
    if p == 0 {
      assert s[..0] + [x] + s[0..] == [x] + s;
    } else {
      var t := s[1..];
      assert forall k | 0 <= k < p - 1 :: t[k] < x by {
        forall k | 0 <= k < p - 1 ensures t[k] < x { assert t[k] == s[k + 1]; }
      }
      assert forall k | p - 1 <= k < |t| :: x <= t[k] by {
        forall k | p - 1 <= k < |t| ensures x <= t[k] { assert t[k] == s[k + 1]; }
      }
      InsertAtLowerBound(t, x, p - 1);
      SplitAfterHead(s, x, p);
      SortedInsertPastHead(s, x);
    }
  }

  lemma SplitAfterHead(s: seq<int>, x: int, p: nat)
    requires 1 <= p <= |s|
    ensures s[..p] + [x] + s[p..] == [s[0]] + (s[1..][..p - 1] + [x] + s[1..][p - 1..])
  {
    assert s[..p] == [s[0]] + s[1..][..p - 1];
    assert s[1..][p - 1..] == s[p..];
  }

  lemma SortedInsertPastHead(s: seq<int>, x: int)
    requires |s| > 0 && s[0] < x
    ensures SortedInsert(s, x) == [s[0]] + SortedInsert(s[1..], x)
  {
  }

  /** The reference insertion puts `x` at position `p`, after exactly the elements of `s`
      smaller than it. */
  predicate SplitsAt(s: seq<int>, x: int, p: nat)
    requires p <= |s|
  {
    && SortedInsert(s, x) == s[..p] + [x] + s[p..]
    && (forall k | 0 <= k < p :: s[k] < x)
    && (forall k | p <= k < |s| :: x <= s[k])
  }

  /** In an ascending sequence the reference insertion puts `x` after exactly the elements
      smaller than it, so before every element equal to it. */
  lemma {:induction false} SortedInsertSplits(s: seq<int>, x: int)
    requires Sorted(s)
    ensures exists p | 0 <= p <= |s| :: SplitsAt(s, x, p)
    decreases |s|
  {
    if |s| == 0 || x <= s[0] {
      SplitsAtFront(s, x);
    } else {
      SortedTail(s);
      SortedInsertSplits(s[1..], x);
      var q :| 0 <= q <= |s[1..]| && SplitsAt(s[1..], x, q);
      SplitsAfterHead(s, x, q);
    }
  }

  lemma SplitsAtFront(s: seq<int>, x: int)
    requires Sorted(s) && (|s| == 0 || x <= s[0])
    ensures SplitsAt(s, x, 0)
  {
    assert SortedInsert(s, x) == s[..0] + [x] + s[0..];
    forall k | 0 <= k < |s|
      ensures x <= s[k]
    {
      assert s[0] <= s[k];
    }
  }

  lemma SplitsAfterHead(s: seq<int>, x: int, q: nat)
    requires |s| > 0 && s[0] < x && q <= |s| - 1
    requires SplitsAt(s[1..], x, q)
    ensures SplitsAt(s, x, q + 1)
  {
    var t := s[1..];
    SortedInsertPastHead(s, x);
    SplitAfterHead(s, x, q + 1);
    forall k | 0 <= k < q + 1
      ensures s[k] < x
    {
      if k > 0 { assert s[k] == t[k - 1]; }
    }
    forall k | q + 1 <= k < |s|
      ensures x <= s[k]
    {
      assert s[k] == t[k - 1];
    }
  }

  /** Reference sort: sort the tail, then insert the head into it. */
  function InsertionSort(s: seq<int>): (r: seq<int>)
    ensures Sorted(r)
    ensures multiset(r) == multiset(s)
  {
    if |s| == 0 then []
    else
      assert s == [s[0]] + s[1..];
      SortedInsert(InsertionSort(s[1..]), s[0])
  }

  /** An ascending sequence is determined by its multiset of elements. */
  lemma {:induction false} SortedPermutationUnique(a: seq<int>, b: seq<int>)
    requires Sorted(a) && Sorted(b)
    requires multiset(a) == multiset(b)
    ensures a == b
    decreases |a|
  {
    assert |a| == |b| by {
      assert |multiset(a)| == |a| && |multiset(b)| == |b|;
    }
    if |a| > 0 {
      SameHead(a, b);
      TailMultiset(a);
      TailMultiset(b);
      SortedTail(a);
      SortedTail(b);
      SortedPermutationUnique(a[1..], b[1..]);
      ConsTail(a);
      ConsTail(b);
    }
  }

  /** Two non-empty ascending sequences with one multiset start with the same element. */
  lemma SameHead(a: seq<int>, b: seq<int>)
    requires Sorted(a) && Sorted(b) && |a| > 0 && |b| > 0
    requires multiset(a) == multiset(b)
    ensures a[0] == b[0]
  {
    assert a[0] in multiset(a) && b[0] in multiset(b);
    HeadIsLeast(b, a[0]);
    HeadIsLeast(a, b[0]);
  }

  lemma TailMultiset(a: seq<int>)
    requires |a| > 0
    ensures multiset(a[1..]) == multiset(a) - multiset{a[0]}
  {
    ConsTail(a);
  }

  lemma SortedTail(a: seq<int>)
    requires Sorted(a) && |a| > 0
    ensures Sorted(a[1..])
  {
  }

  lemma ConsTail(a: seq<int>)
    requires |a| > 0
    ensures a == [a[0]] + a[1..]
  {
  }

  /** Sorting an already ascending sequence gives it back. */
  lemma {:induction false} InsertionSortOfSorted(s: seq<int>)
    requires Sorted(s)
    ensures InsertionSort(s) == s
  {
    SortedPermutationUnique(InsertionSort(s), s);
  }

  // ---------------------------------------------------------------------------
  // index permutations

  /** `order` lists each of the indices `0 .. m-1` exactly once. */
  predicate IsIndexPermutation(order: seq<nat>, m: nat) {
    && |order| == m
    && (forall j | 0 <= j < m :: order[j] < m)
    && (forall i, j | 0 <= i < j < m :: order[i] != order[j])
  }

  /** The elements of `s` at the positions listed in `order`, in that order. */
  function Gather(s: seq<int>, order: seq<nat>): seq<int>
    requires forall j | 0 <= j < |order| :: order[j] < |s|
  {
    seq(|order|, j requires 0 <= j < |order| => s[order[j]])
  }

  /** `s` without its element at position `v`. */
  function RemoveAt(s: seq<int>, v: nat): (r: seq<int>)
    requires v < |s|
    ensures |r| == |s| - 1
    ensures multiset(r) + multiset{s[v]} == multiset(s)
  {
    assert s == s[..v] + [s[v]] + s[v + 1..];
    s[..v] + s[v + 1..]
  }

  /** The indices of `order` renumbered for a sequence in which position `v` was removed. */
  function Reindex(order: seq<nat>, v: nat): seq<nat> {
    seq(|order|, j requires 0 <= j < |order| => if order[j] > v then order[j] - 1 else order[j])
  }

  /** Visiting every position exactly once collects exactly the elements of `s`. */
  lemma {:induction false} GatherPermutation(s: seq<int>, order: seq<nat>)
    requires IsIndexPermutation(order, |s|)
    ensures multiset(Gather(s, order)) == multiset(s)
    decreases |s|
  {
    var m := |s|;
    if m > 0 {
      var v := order[m - 1];
      var init := order[..m - 1];
      ReindexPermutation(order, m);
      GatherPermutation(RemoveAt(s, v), Reindex(init, v));
      GatherReindex(s, order);
    }
  }

  /** Dropping the last index `v` of a permutation of `0 .. m-1` and renumbering the rest around
      the gap gives a permutation of `0 .. m-2`. */
  lemma ReindexPermutation(order: seq<nat>, m: nat)
    requires m > 0 && IsIndexPermutation(order, m)
    ensures IsIndexPermutation(Reindex(order[..m - 1], order[m - 1]), m - 1)
  {
    var v := order[m - 1];
    assert forall j | 0 <= j < m - 1 :: order[j] != v;
  }

  /** Gathering by a permutation is gathering the other positions from `s` without the last
      visited one, then that one. */
  lemma GatherReindex(s: seq<int>, order: seq<nat>)
    requires |s| > 0 && IsIndexPermutation(order, |s|)
    ensures var m, v := |s|, order[|s| - 1];
      var init := order[..m - 1];
      && (forall j | 0 <= j < |init| :: Reindex(init, v)[j] < |RemoveAt(s, v)|)
      && Gather(s, order) == Gather(RemoveAt(s, v), Reindex(init, v)) + [s[v]]
  {
    var m, v := |s|, order[|s| - 1];
    var init := order[..m - 1];
    assert forall j | 0 <= j < m - 1 :: init[j] != v;
    assert Gather(s, init) == Gather(RemoveAt(s, v), Reindex(init, v));
    assert Gather(s, order) == Gather(s, init) + [s[v]];
  }

  /** `0, 1, ..., m-1`. */
  function Range(m: nat): seq<nat> {
    seq(m, j => j)
  }

  lemma RangeIsIndexPermutation(m: nat)
    ensures IsIndexPermutation(Range(m), m)
  {
  }
}
