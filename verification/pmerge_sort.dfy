/** The merge-insert sort of `PmergeMe` (ex02): pair adjacent elements as (min, max), sort the
    pairs by their larger element, seed the main chain with the larger elements, binary-insert
    the smaller ones in the order `buildJacobOrder` gives, then the leftover odd element, and copy
    the main chain back. The source instantiates it for `std::vector<int>` and `std::deque<int>`;
    both are one `seq<int>` here. */
module PmergeMe {
  import opened Wrappers
  import opened SortedSeqs
  import opened InsertionSchedule

  /** A pair as built by `buildPairsAndSortWrapper`: `first` the smaller, `second` the larger. */
  datatype Pair = Pair(first: int, second: int)

  /** Lines 95-96: the pair of two adjacent elements, smaller one first. */
  function MinMaxPair(x: int, y: int): (p: Pair)
    ensures p.first <= p.second
    ensures multiset{p.first, p.second} == multiset{x, y}
  {
    if x <= y then Pair(x, y) else Pair(y, x)
  }

  /** The pairs of positions `2k, 2k+1`, in input order. */
  function MakePairs(c: seq<int>): (ps: seq<Pair>)
    ensures |ps| == |c| / 2
    ensures forall k | 0 <= k < |ps| :: ps[k].first <= ps[k].second
  {
    seq(|c| / 2, k requires 0 <= k < |c| / 2 => MinMaxPair(c[2 * k], c[2 * k + 1]))
  }

  /** The element left without a partner: the last one when the length is odd. */
  function StrayOf(c: seq<int>): Option<int> {
    if |c| % 2 == 1 then Some(c[|c| - 1]) else None
  }

  function StrayElems(stray: Option<int>): multiset<int> {
    if stray.Some? then multiset{stray.value} else multiset{}
  }

  function PairFirst(p: Pair): int { p.first }
  function PairSecond(p: Pair): int { p.second }

  /** One component of every pair, in pair order. */
  function Project(ps: seq<Pair>, f: Pair -> int): seq<int> {
    seq(|ps|, k requires 0 <= k < |ps| => f(ps[k]))
  }

  /** The entries of a component list, by position. */
  lemma ProjectIndex(ps: seq<Pair>, f: Pair -> int)
    ensures |Project(ps, f)| == |ps|
    ensures forall k | 0 <= k < |ps| :: Project(ps, f)[k] == f(ps[k])
  {
  }

  function Firsts(ps: seq<Pair>): seq<int> { Project(ps, PairFirst) }
  function Seconds(ps: seq<Pair>): seq<int> { Project(ps, PairSecond) }

  /** Every element held by the pairs. */
  function PairElems(ps: seq<Pair>): multiset<int> {
    multiset(Firsts(ps)) + multiset(Seconds(ps))
  }

  /** Pairing, plus the leftover element, keeps every input element exactly once. */
  lemma PairingKeepsElements(c: seq<int>)
    ensures PairElems(MakePairs(c)) + StrayElems(StrayOf(c)) == multiset(c)
  {
    var h := |c| / 2;
    var m := 2 * h;
    assert m == |c| || m == |c| - 1;
    EvenPairingKeepsElements(c[..m]);
    assert MakePairs(c[..m]) == MakePairs(c) by {
      var l, r := MakePairs(c[..m]), MakePairs(c);
      assert |l| == h == |r|;
      forall k | 0 <= k < h
        ensures l[k] == r[k]
      {
        assert 2 * k + 1 < m;
      }
    }
    if |c| % 2 == 1 {
      assert c == c[..m] + [c[|c| - 1]];
    } else {
      assert c[..m] == c;
    }
  }

  lemma {:induction false} EvenPairingKeepsElements(c: seq<int>)
    requires |c| % 2 == 0
    ensures PairElems(MakePairs(c)) == multiset(c)
    decreases |c|
  {
    if |c| > 0 {
      var c' := c[..|c| - 2];
      var p := MinMaxPair(c[|c| - 2], c[|c| - 1]);
      EvenPairingKeepsElements(c');
      MakePairsSnoc(c);
      PairElemsSnoc(MakePairs(c'), p);
      DropLastTwo(c);
    } else {
      PairElemsEmpty(MakePairs(c));
    }
  }

  lemma PairElemsEmpty(ps: seq<Pair>)
    requires |ps| == 0
    ensures PairElems(ps) == multiset{}
  {
    assert Firsts(ps) == [] && Seconds(ps) == [];
  }

  /** Appending a pair adds its two components. */
  lemma PairElemsSnoc(ps: seq<Pair>, p: Pair)
    ensures PairElems(ps + [p]) == PairElems(ps) + multiset{p.first, p.second}
  {
    ProjectConcat(ps, [p], PairFirst);
    ProjectConcat(ps, [p], PairSecond);
    assert Project([p], PairFirst) == [p.first];
    assert Project([p], PairSecond) == [p.second];
  }

  lemma DropLastTwo(c: seq<int>)
    requires |c| >= 2
    ensures multiset(c) == multiset(c[..|c| - 2]) + multiset{c[|c| - 2], c[|c| - 1]}
  {
    assert c == c[..|c| - 2] + [c[|c| - 2], c[|c| - 1]];
  }

  /** Pairing a sequence of even length is pairing all but its last two elements, then those. */
  lemma MakePairsSnoc(c: seq<int>)
    requires |c| >= 2 && |c| % 2 == 0
    ensures MakePairs(c) == MakePairs(c[..|c| - 2]) + [MinMaxPair(c[|c| - 2], c[|c| - 1])]
  {
    var c' := c[..|c| - 2];
    var m := |c| / 2;
    assert |c'| / 2 == m - 1;
    var l := MakePairs(c);
    var r := MakePairs(c') + [MinMaxPair(c[|c| - 2], c[|c| - 1])];
    assert |l| == |r|;
    forall k | 0 <= k < m
      ensures l[k] == r[k]
    {
      if k < m - 1 {
        assert 2 * k + 1 < |c'|;
        assert c'[2 * k] == c[2 * k] && c'[2 * k + 1] == c[2 * k + 1];
      } else {
        assert 2 * k == |c| - 2;
      }
    }
  }

  lemma ProjectConcat(u: seq<Pair>, v: seq<Pair>, f: Pair -> int)
    ensures Project(u + v, f) == Project(u, f) + Project(v, f)
  {
  }

  /** A component list depends only on the multiset of pairs, not on their order. */
  lemma {:induction false} ProjectPermutation(a: seq<Pair>, b: seq<Pair>, f: Pair -> int)
    requires multiset(a) == multiset(b)
    ensures multiset(Project(a, f)) == multiset(Project(b, f))
    decreases |a|
  {
    if |a| == 0 {
      assert |b| == |multiset(b)| == 0;
    } else {
      var x := a[|a| - 1];
      assert x in multiset(b);
      var p :| 0 <= p < |b| && b[p] == x;
      var a' := a[..|a| - 1];
      assert a == a' + [x];
      RemoveMatching(a, b, p);
      ProjectPermutation(a', b[..p] + b[p + 1..], f);
      ProjectSnoc(a', x, f);
      ProjectRemove(b, p, f);
    }
  }

  /** Removing the last pair of `a` and an equal pair of `b` keeps the multisets equal. */
  lemma RemoveMatching(a: seq<Pair>, b: seq<Pair>, p: nat)
    requires multiset(a) == multiset(b) && |a| > 0 && p < |b| && b[p] == a[|a| - 1]
    ensures multiset(a[..|a| - 1]) == multiset(b[..p] + b[p + 1..])
  {
    var x := a[|a| - 1];
    assert a == a[..|a| - 1] + [x];
    assert b == b[..p] + [x] + b[p + 1..];
    calc {
      multiset(a[..|a| - 1]);
      multiset(a) - multiset{x};
      multiset(b) - multiset{x};
      multiset(b[..p] + b[p + 1..]);
    }
  }

  lemma ProjectSnoc(a: seq<Pair>, x: Pair, f: Pair -> int)
    ensures multiset(Project(a + [x], f)) == multiset(Project(a, f)) + multiset{f(x)}
  {
    ProjectConcat(a, [x], f);
  }

  lemma ProjectRemove(b: seq<Pair>, p: nat, f: Pair -> int)
    requires p < |b|
    ensures multiset(Project(b, f)) == multiset(Project(b[..p] + b[p + 1..], f)) + multiset{f(b[p])}
  {
    var b1, b2 := b[..p], b[p + 1..];
    assert b == b1 + [b[p]] + b2;
    ProjectConcat(b1 + [b[p]], b2, f);
    ProjectConcat(b1, [b[p]], f);
    ProjectConcat(b1, b2, f);
  }

  // ---------------------------------------------------------------------------
  // Sorting the pairs by their larger element

  /** `cmpPairsBySecond` (lines 78-80). */
  predicate CmpPairsBySecond(a: Pair, b: Pair) {
    a.second < b.second
  }

  /** Ordered for the comparator: no later pair compares below an earlier one. */
  predicate SortedBySecond(ps: seq<Pair>) {
    forall i, j | 0 <= i < j < |ps| :: !CmpPairsBySecond(ps[j], ps[i])
  }

  function InsertBySecond(s: seq<Pair>, p: Pair): (r: seq<Pair>)
    ensures |r| == |s| + 1
    ensures multiset(r) == multiset(s) + multiset{p}
    ensures SortedBySecond(s) ==> SortedBySecond(r)
  {
    if |s| == 0 || !CmpPairsBySecond(s[0], p) then [p] + s
    else
      assert s == [s[0]] + s[1..];
      var t := InsertBySecond(s[1..], p);
      assert SortedBySecond(s) ==> SortedBySecond([s[0]] + t) by {
        if SortedBySecond(s) {
          ConsBelowInsertBySecond(s, p, t);
        }
      }
      [s[0]] + t
  }

  /** Putting the head of an ordered list back in front of its tail with `p` inserted, where
      `p` does not compare below the head, keeps the order. */
  lemma ConsBelowInsertBySecond(s: seq<Pair>, p: Pair, t: seq<Pair>)
    requires SortedBySecond(s) && |s| > 0 && CmpPairsBySecond(s[0], p)
    requires SortedBySecond(t) && multiset(t) == multiset(s[1..]) + multiset{p}
    ensures SortedBySecond([s[0]] + t)
  {
    forall k | 0 <= k < |t|
      ensures s[0].second <= t[k].second
    {
      assert t[k] in multiset(t);
      if t[k] != p {
        assert t[k] in s[1..];
      }
    }
  }

  /** The `std::sort(pairs, cmpPairsBySecond)` of line 99. `std::sort` is not stable, so the
      source fixes only what this contract states: a permutation ordered by `second`. This
      definition is one such permutation, and no proof below depends on which. */
  function SortPairsBySecond(ps: seq<Pair>): (r: seq<Pair>)
    ensures multiset(r) == multiset(ps)
    ensures SortedBySecond(r)
  {
    if |ps| == 0 then []
    else
      assert ps == ps[..|ps| - 1] + [ps[|ps| - 1]];
      InsertBySecond(SortPairsBySecond(ps[..|ps| - 1]), ps[|ps| - 1])
  }

  /** `buildPairsAndSortWrapper` (lines 84-100): pairs `input[i], input[i+1]` for `i = 0, 2, ...`,
      keeps the odd element out, and sorts the pairs by their larger element. */
  method BuildPairsAndSortWrapper(input: seq<int>) returns (pairs: seq<Pair>, stray: Option<int>)
    ensures multiset(pairs) == multiset(MakePairs(input))
    ensures SortedBySecond(pairs)
    ensures forall k | 0 <= k < |pairs| :: pairs[k].first <= pairs[k].second
    ensures stray.Some? <==> |input| % 2 == 1
    ensures stray.Some? ==> stray.value == input[|input| - 1]
  {
    var unsorted;
    unsorted, stray := PairUp(input);
    pairs := SortPairsBySecond(unsorted);
    PermutedPairsOrdered(pairs, unsorted);
  }

  /** Lines 90-98: the pairing loop and the leftover element. */
  method PairUp(input: seq<int>) returns (unsorted: seq<Pair>, stray: Option<int>)
    ensures unsorted == MakePairs(input)
    ensures stray == StrayOf(input)
  {
    unsorted := [];
    stray := None;
    var n := |input|;
    var i := 0;
    while i + 1 < n
      invariant 0 <= i <= n && i == 2 * |unsorted|
      invariant forall k | 0 <= k < |unsorted| :: unsorted[k] == MinMaxPair(input[2 * k], input[2 * k + 1])
    {
      var x := input[i];
      var y := input[i + 1];
      if x <= y {
        unsorted := unsorted + [Pair(x, y)];
      } else {
        unsorted := unsorted + [Pair(y, x)];
      }
      i := i + 2;
    }
    if i < n {
      assert i == n - 1;
      stray := Some(input[i]);
    }
    PairsBuiltAreMakePairs(input, unsorted);
  }

  /** What the pairing loop has built once it stops is `MakePairs(input)`. */
  lemma PairsBuiltAreMakePairs(input: seq<int>, unsorted: seq<Pair>)
    requires |input| == 2 * |unsorted| || |input| == 2 * |unsorted| + 1
    requires forall k | 0 <= k < |unsorted| :: unsorted[k] == MinMaxPair(input[2 * k], input[2 * k + 1])
    ensures unsorted == MakePairs(input)
  {
    assert |input| / 2 == |unsorted|;
  }

  /** A permutation of ordered pairs holds ordered pairs. */
  lemma PermutedPairsOrdered(pairs: seq<Pair>, ps: seq<Pair>)
    requires multiset(pairs) == multiset(ps)
    requires forall k | 0 <= k < |ps| :: ps[k].first <= ps[k].second
    ensures forall k | 0 <= k < |pairs| :: pairs[k].first <= pairs[k].second
  {
    forall k | 0 <= k < |pairs|
      ensures pairs[k].first <= pairs[k].second
    {
      assert pairs[k] in multiset(ps);
      var j :| 0 <= j < |ps| && ps[j] == pairs[k];
    }
  }

  // ---------------------------------------------------------------------------
  // Binary insertion

  /** `std::lower_bound` (line 105), as the usual halving search: the first position whose
      element is not less than `x`. */
  method LowerBound(s: seq<int>, x: int) returns (first: nat)
    requires Sorted(s)
    ensures first <= |s|
    ensures forall k | 0 <= k < first :: s[k] < x
    ensures forall k | first <= k < |s| :: x <= s[k]
  {
    first := 0;
    var len := |s|;
    while len > 0
      invariant 0 <= len && first + len <= |s|
      invariant forall k | 0 <= k < first :: s[k] < x
      invariant forall k | first + len <= k < |s| :: x <= s[k]
      decreases len
    {
      var half := len / 2;
      var middle := first + half;
      if s[middle] < x {
        first := middle + 1;
        len := len - half - 1;
      } else {
        len := half;
      }
    }
  }

  /** `binaryInsert` (lines 103-107): inserts `x` at the `lower_bound` position, that is, before
      every element equal to it. */
  method BinaryInsert(mainChain: seq<int>, x: int) returns (r: seq<int>)
    requires Sorted(mainChain)
    ensures r == SortedInsert(mainChain, x)
    ensures Sorted(r) && |r| == |mainChain| + 1
    ensures multiset(r) == multiset(mainChain) + multiset{x}
  {
    var it := LowerBound(mainChain, x);
    InsertAtLowerBound(mainChain, x, it);
    r := mainChain[..it] + [x] + mainChain[it..];
  }

  // ---------------------------------------------------------------------------
  // The insertion order

  /** The table loop of `buildJacobOrder` (lines 118-126), for `n >= 1`. The loop pushes
      `J[1] + 2 J[0] = 1` and then tests whether the value just pushed equals the last element,
      which it always does: the loop never runs a second time. */
  function JacobTableAsWritten(n: nat): (J: seq<nat>)
    requires n >= 1
    ensures 2 <= |J| <= 3
    ensures forall i | 0 <= i < |J| :: J[i] == Jacobsthal(i)
    ensures J[|J| - 1] == 1
  {
    var J := [0, 1];
    if J[|J| - 1] < n then
      var next := J[|J| - 1] + 2 * J[|J| - 2];
      var J' := J + [next];
      assert next == J'[|J'| - 1];
      J'
    else J
  }

  /** `buildJacobOrder` (lines 110-152). With the table above, the only window is `[1]` and the
      rest is appended in ascending order, so the schedule is `0, 1, ..., n-1`. */
  function BuildJacobOrder(n: nat): (order: seq<nat>)
    ensures order == Range(n)
    ensures IsIndexPermutation(order, n)
  {
    if n == 0 then []
    else
      var J := JacobTableAsWritten(n);
      assert Windows(J, n, 2, 1) == CountUp(1, n) by {
        if n >= 2 {
          assert J == [0, 1, 1];
          assert Windows(J, n, 2, 1) == [1] + Windows(J, n, 3, 2);
          assert CountUp(1, n) == [1] + CountUp(2, n);
        }
      }
      ToZeroBased(Windows(J, n, 2, 1))
  }

  /** The exit on line 125 compares the value just appended with the last element, so it is
      always taken: for two or more pending elements the table stops at `[0, 1, 1]` and never
      covers them. */
  lemma JacobTableStopsEarly(n: nat)
    requires n >= 2
    ensures JacobTableAsWritten(n) == [0, 1, 1]
    ensures JacobTableAsWritten(n)[2] < n
  {
  }

  /** For five pending elements the schedule is ascending, not the Jacobsthal schedule
      `0, 2, 1, 4, 3` of the full table. */
  lemma AsWrittenScheduleExample()
    ensures BuildJacobOrder(5) == [0, 1, 2, 3, 4]
    ensures BuildJacobOrder(5) != JacobsthalOrder(5)
  {
    JacobsthalOrderExample();
    RangeFive();
    assert BuildJacobOrder(5)[1] == 1;
  }

  lemma RangeFive()
    ensures Range(5) == [0, 1, 2, 3, 4]
  {
    var r := Range(5);
    assert r[0] == 0 && r[1] == 1 && r[2] == 2 && r[3] == 3 && r[4] == 4;
  }

  /** Lines 186-190: binary-inserts `pend[order[oi] + 1]` for each entry of the schedule. The
      guard `idx < pend.size()` of line 188 always holds for an index permutation, so every
      pending element but the first is inserted exactly once. */
  method InsertScheduled(mainChain: seq<int>, pend: seq<int>, order: seq<nat>) returns (r: seq<int>)
    requires Sorted(mainChain)
    requires |pend| >= 1
    requires IsIndexPermutation(order, |pend| - 1)
    ensures Sorted(r)
    ensures multiset(r) == multiset(mainChain) + multiset(pend[1..])
  {
    r := mainChain;
    var oi := 0;
    while oi < |order|
      invariant 0 <= oi <= |order|
      invariant Sorted(r)
      invariant multiset(r) == multiset(mainChain) + multiset(Gather(pend[1..], order[..oi]))
    {
      var idx := order[oi] + 1;
      assert Gather(pend[1..], order[..oi + 1]) == Gather(pend[1..], order[..oi]) + [pend[idx]];
      if idx < |pend| {
        r := BinaryInsert(r, pend[idx]);
      }
      oi := oi + 1;
    }
    assert order[..oi] == order;
    GatherPermutation(pend[1..], order);
  }

  // ---------------------------------------------------------------------------
  // The whole sort

  /** Which insertion order the sort follows: the one `buildJacobOrder` computes as written
      (ascending), or the Jacobsthal order its table loop was written to produce. */
  datatype Schedule = AscendingAsWritten | JacobsthalWindows

  /** The order in which pending elements `1 .. m` are inserted, 0-based. */
  function ScheduleOrder(schedule: Schedule, m: nat): (order: seq<nat>)
    ensures IsIndexPermutation(order, m)
    ensures schedule == AscendingAsWritten ==> order == Range(m)
  {
    match schedule
    case AscendingAsWritten => BuildJacobOrder(m)
    case JacobsthalWindows => JacobsthalOrder(m)
  }

  /** `fordJohnsonSort` (lines 155-201). The result is the ascending permutation of the input,
      the same as the reference insertion sort (so, by `InsertionSortOfSorted`, the input itself
      when it is already sorted). */
  method FordJohnsonSort(c: seq<int>) returns (r: seq<int>)
    ensures r == InsertionSort(c)
    ensures |r| == |c|
    ensures Sorted(r)
    ensures multiset(r) == multiset(c)
    ensures |c| < 2 ==> r == c
  {
    r := MergeInsertSort(c, AscendingAsWritten);
  }

  /** `fordJohnsonSort` with the table loop of `buildJacobOrder` corrected, so that the pending
      elements are inserted in Jacobsthal order: the result is the same. */
  method FordJohnsonSortCorrected(c: seq<int>) returns (r: seq<int>)
    ensures r == InsertionSort(c)
    ensures |r| == |c|
    ensures Sorted(r)
    ensures multiset(r) == multiset(c)
    ensures |c| < 2 ==> r == c
  {
    r := MergeInsertSort(c, JacobsthalWindows);
  }

  /** The steps of `fordJohnsonSort` (lines 155-201) with the insertion order as a parameter. */
  method MergeInsertSort(c: seq<int>, schedule: Schedule) returns (r: seq<int>)
    ensures r == InsertionSort(c)
    ensures |r| == |c|
    ensures Sorted(r)
    ensures multiset(r) == multiset(c)
    ensures |c| < 2 ==> r == c
  {
    var N := |c|;
    if N < 2 {
      if N == 1 {
        assert InsertionSort(c) == SortedInsert([], c[0]);
      }
      return c;
    }
    var pairs, stray := BuildPairsAndSortWrapper(c);
    assert |pairs| >= 1 by {
      assert |pairs| == |multiset(pairs)| == |MakePairs(c)| == N / 2;
    }
    var mainChain, pend := SeedMainChain(pairs);
    PairsKeepElements(c, pairs, stray);
    mainChain := InsertSmallerElements(mainChain, pend, stray, schedule);
    assert |mainChain| == N by {
      assert |multiset(mainChain)| == |mainChain| && |multiset(c)| == N;
    }
    r := CopyBack(c, mainChain);
    SortedPermutationUnique(r, InsertionSort(c));
  }

  /** Lines 176-196: binary-inserts `pend[0]`, then the other pending elements in the order of
      the schedule, then the leftover element. */
  method InsertSmallerElements(mainChain: seq<int>, pend: seq<int>, stray: Option<int>,
                               schedule: Schedule)
    returns (r: seq<int>)
    requires Sorted(mainChain)
    ensures Sorted(r)
    ensures multiset(r) == multiset(mainChain) + multiset(pend) + StrayElems(stray)
  {
    r := InsertPending(mainChain, pend, schedule);
    if stray.Some? {
      ghost var before := multiset(r);
      r := BinaryInsert(r, stray.value);
      assert multiset(r) == before + StrayElems(stray);
    }
  }

  /** Lines 176-191: binary-inserts `pend[0]`, then the other pending elements in the order of
      the schedule (`buildJacobOrder`, line 183, for the program as written). */
  method InsertPending(mainChain: seq<int>, pend: seq<int>, schedule: Schedule) returns (r: seq<int>)
    requires Sorted(mainChain)
    ensures Sorted(r)
    ensures multiset(r) == multiset(mainChain) + multiset(pend)
  {
    if |pend| == 0 {
      return mainChain;
    }
    r := BinaryInsert(mainChain, pend[0]);
    HeadTailMultiset(pend);
    if |pend| > 1 {
      var order := ScheduleOrder(schedule, |pend| - 1);
      r := InsertScheduled(r, pend, order);
    } else {
      assert pend[1..] == [];
    }
  }

  lemma HeadTailMultiset(a: seq<int>)
    requires |a| > 0
    ensures multiset(a) == multiset{a[0]} + multiset(a[1..])
  {
    ConsTail(a);
  }

  /** Lines 171-174: the main chain is the larger elements of the sorted pairs, hence ascending;
      `pend` holds the smaller elements in the same order. */
  method SeedMainChain(pairs: seq<Pair>) returns (mainChain: seq<int>, pend: seq<int>)
    requires SortedBySecond(pairs)
    ensures mainChain == Seconds(pairs) && pend == Firsts(pairs)
    ensures Sorted(mainChain)
    ensures |pend| == |mainChain| == |pairs|
  {
    mainChain := [];
    pend := [];
    var i := 0;
    while i < |pairs|
      invariant 0 <= i <= |pairs|
      invariant mainChain == Seconds(pairs[..i])
      invariant pend == Firsts(pairs[..i])
    {
      assert pairs[..i + 1] == pairs[..i] + [pairs[i]];
      ProjectConcat(pairs[..i], [pairs[i]], PairSecond);
      ProjectConcat(pairs[..i], [pairs[i]], PairFirst);
      ProjectIndex([pairs[i]], PairSecond);
      ProjectIndex([pairs[i]], PairFirst);
      mainChain := mainChain + [pairs[i].second];
      pend := pend + [pairs[i].first];
      i := i + 1;
    }
    assert pairs[..i] == pairs;
    ProjectIndex(pairs, PairSecond);
  }

  /** Line 200: `c[i] = mainChain[i]` for every position of the input. */
  method CopyBack(c: seq<int>, mainChain: seq<int>) returns (r: seq<int>)
    requires |mainChain| == |c|
    ensures r == mainChain
  {
    r := c;
    var i := 0;
    while i < |c|
      invariant 0 <= i <= |c| && |r| == |c|
      invariant forall k | 0 <= k < i :: r[k] == mainChain[k]
    {
      r := r[i := mainChain[i]];
      i := i + 1;
    }
    SameElementsSameSeq(r, mainChain);
  }

  lemma SameElementsSameSeq(a: seq<int>, b: seq<int>)
    requires |a| == |b|
    requires forall k | 0 <= k < |a| :: a[k] == b[k]
    ensures a == b
  {
  }

  /** The sorted pairs and the leftover element together hold the input's elements. */
  lemma PairsKeepElements(c: seq<int>, pairs: seq<Pair>, stray: Option<int>)
    requires multiset(pairs) == multiset(MakePairs(c))
    requires stray == StrayOf(c)
    ensures multiset(Seconds(pairs)) + multiset(Firsts(pairs)) + StrayElems(stray) == multiset(c)
  {
    ProjectPermutation(pairs, MakePairs(c), PairFirst);
    ProjectPermutation(pairs, MakePairs(c), PairSecond);
    PairingKeepsElements(c);
  }
}
