/** The index schedule of `PmergeMe::buildJacobOrder`, given the table `J` it builds: the
    windows `J[k-1]+1 .. J[k]` emitted in descending order (clamped at `n`), the indices no window
    reached appended in ascending order, and the conversion to 0-based positions. The table the
    source actually builds is in module PmergeMe; this module also holds the full Jacobsthal table
    the window construction was written for. */
module InsertionSchedule {
  import opened SortedSeqs

  /** The inner `while (i >= prev)` loop (lines 135-140): `i, i-1, ..., prev`, nothing when
      `i < prev`. */
  function CountDown(i: nat, prev: nat): (r: seq<nat>)
    ensures |r| == if i < prev then 0 else i - prev + 1
    ensures forall t | 0 <= t < |r| :: r[t] == i - t
    decreases i
  {
    if i < prev then []
    else if i == prev then [i]
    else [i] + CountDown(i - 1, prev)
  }

  /** The closing loop `for (i = prev; i <= n; ++i)` (line 145): `lo, lo+1, ..., hi`. */
  function CountUp(lo: nat, hi: nat): (r: seq<nat>)
    ensures |r| == if hi < lo then 0 else hi - lo + 1
    ensures forall t | 0 <= t < |r| :: r[t] == lo + t
    decreases hi + 1 - lo
  {
    if hi < lo then [] else [lo] + CountUp(lo + 1, hi)
  }

  /** The window loop `for (k = 2; k < J.size(); ++k)` (lines 130-143) from table position `k`
      with next unemitted index `prev`, followed by the closing loop (line 145). */
  function Windows(J: seq<nat>, n: nat, k: nat, prev: nat): seq<nat>
    decreases |J| - k
  {
    if k >= |J| then CountUp(prev, n)
    else
      var curr := if J[k] > n then n else J[k];
      var w := CountDown(curr, prev);
      if curr == n then w + CountUp(curr + 1, n)
      else w + Windows(J, n, k + 1, curr + 1)
  }

  /** The conversion loop (lines 148-151): 1-based to 0-based, with 0 kept at 0. */
  function ToZeroBased(order: seq<nat>): seq<nat> {
    seq(|order|, t requires 0 <= t < |order| => if order[t] > 0 then order[t] - 1 else 0)
  }

  /** `r` lists each of `lo .. hi` exactly once. */
  predicate ListsOnce(r: seq<nat>, lo: nat, hi: nat)
    requires lo <= hi + 1
  {
    && |r| == hi + 1 - lo
    && (forall t | 0 <= t < |r| :: lo <= r[t] <= hi)
    && (forall s, t | 0 <= s < t < |r| :: r[s] != r[t])
  }

  predicate NonDecreasing(J: seq<nat>) {
    forall i, j | 0 <= i <= j < |J| :: J[i] <= J[j]
  }

  /** Listing `lo .. mid` once and then `mid+1 .. hi` once lists `lo .. hi` once. */
  lemma ListsOnceConcat(w: seq<nat>, rest: seq<nat>, lo: nat, mid: nat, hi: nat)
    requires lo <= mid + 1 && mid + 1 <= hi + 1
    requires ListsOnce(w, lo, mid) && ListsOnce(rest, mid + 1, hi)
    ensures ListsOnce(w + rest, lo, hi)
  {
    var r := w + rest;
    forall t | 0 <= t < |r|
      ensures lo <= r[t] <= hi
    {
      if t >= |w| {
        assert r[t] == rest[t - |w|];
      }
    }
    forall s, t | 0 <= s < t < |r|
      ensures r[s] != r[t]
    {
      if t < |w| {
      } else if s >= |w| {
        assert r[s] == rest[s - |w|] && r[t] == rest[t - |w|];
      } else {
        assert r[s] <= mid < r[t];
      }
    }
  }

  lemma CountDownListsOnce(i: nat, prev: nat)
    requires prev <= i + 1
    ensures ListsOnce(CountDown(i, prev), prev, i)
  {
  }

  lemma CountUpListsOnce(lo: nat, hi: nat)
    requires lo <= hi + 1
    ensures ListsOnce(CountUp(lo, hi), lo, hi)
  {
  }

  /** Whatever non-decreasing table drives the windows, every index `prev .. n` is emitted
      exactly once. */
  lemma {:induction false} WindowsListOnce(J: seq<nat>, n: nat, k: nat, prev: nat)
    requires 1 <= prev <= n + 1
    requires k < |J| ==> prev <= J[k] + 1
    requires forall i, j | k <= i <= j < |J| :: J[i] <= J[j]
    ensures ListsOnce(Windows(J, n, k, prev), prev, n)
    decreases |J| - k
  {
    if k < |J| {
      var curr := if J[k] > n then n else J[k];
      CountDownListsOnce(curr, prev);
      if curr != n {
        assert k + 1 < |J| ==> J[k] <= J[k + 1];
        WindowsListOnce(J, n, k + 1, curr + 1);
        ListsOnceConcat(CountDown(curr, prev), Windows(J, n, k + 1, curr + 1), prev, curr, n);
      } else {
        CountUpListsOnce(curr + 1, n);
        ListsOnceConcat(CountDown(curr, prev), CountUp(curr + 1, n), prev, curr, n);
      }
    } else {
      CountUpListsOnce(prev, n);
    }
  }

  lemma ToZeroBasedPermutation(r: seq<nat>, n: nat)
    requires ListsOnce(r, 1, n)
    ensures IsIndexPermutation(ToZeroBased(r), n)
  {
  }

  // ---------------------------------------------------------------------------
  // The full Jacobsthal table

  /** J(0) = 0, J(1) = 1, J(k) = J(k-1) + 2 J(k-2). */
  function Jacobsthal(k: nat): nat {
    if k == 0 then 0 else if k == 1 then 1 else Jacobsthal(k - 1) + 2 * Jacobsthal(k - 2)
  }

  /** The table loop of lines 121-126 without the exit on line 125: appends
      `J[last] + 2 J[last-1]` until the last entry reaches `n`. */
  function GrowTable(J: seq<nat>, n: nat): (r: seq<nat>)
    requires |J| >= 2 && J[|J| - 1] >= 1 && NonDecreasing(J)
    ensures |r| >= |J| && r[..|J|] == J
    ensures NonDecreasing(r) && r[|r| - 1] >= n
    ensures (forall i | 0 <= i < |J| :: J[i] == Jacobsthal(i)) ==>
              forall i | 0 <= i < |r| :: r[i] == Jacobsthal(i)
    decreases 2 * n - J[|J| - 1] - J[|J| - 2]
  {
    if J[|J| - 1] >= n then J
    else
      var J' := J + [J[|J| - 1] + 2 * J[|J| - 2]];
      GrowStep(J);
      var r := GrowTable(J', n);
      assert r[..|J|] == r[..|J'|][..|J|];
      r
  }

  /** One step of the table loop keeps the table non-decreasing and Jacobsthal. */
  lemma GrowStep(J: seq<nat>)
    requires |J| >= 2 && NonDecreasing(J)
    ensures var J' := J + [J[|J| - 1] + 2 * J[|J| - 2]];
      && J'[..|J|] == J && NonDecreasing(J')
      && ((forall i | 0 <= i < |J| :: J[i] == Jacobsthal(i)) ==>
            forall i | 0 <= i < |J'| :: J'[i] == Jacobsthal(i))
  {
    var J' := J + [J[|J| - 1] + 2 * J[|J| - 2]];
    assert J'[..|J|] == J;
    forall i, j | 0 <= i <= j < |J'|
      ensures J'[i] <= J'[j]
    {
      if i < j == |J| {
        assert J[i] <= J[|J| - 1];
      }
    }
  }

  /** The Jacobsthal numbers up to the first one that is at least `n` (the table is only built
      for `n >= 1`: line 115 returns before it otherwise). */
  function JacobTable(n: nat): (J: seq<nat>)
    requires n >= 1
    ensures |J| >= 2 && NonDecreasing(J) && J[|J| - 1] >= n
    ensures forall i | 0 <= i < |J| :: J[i] == Jacobsthal(i)
    ensures forall i | 0 <= i < |J| - 1 :: J[i] < n
  {
    JacobTableBelow(n, [0, 1]);
    GrowTable([0, 1], n)
  }

  /** Every entry of the grown table but the last is below `n`. */
  lemma {:induction false} JacobTableBelow(n: nat, J: seq<nat>)
    requires |J| >= 2 && J[|J| - 1] >= 1 && NonDecreasing(J)
    requires forall i | 0 <= i < |J| - 1 :: J[i] < n
    ensures forall i | 0 <= i < |GrowTable(J, n)| - 1 :: GrowTable(J, n)[i] < n
    decreases 2 * n - J[|J| - 1] - J[|J| - 2]
  {
    if J[|J| - 1] < n {
      var J' := J + [J[|J| - 1] + 2 * J[|J| - 2]];
      JacobTableBelow(n, J');
    }
  }

  /** The schedule the window construction produces from the full Jacobsthal table. */
  function JacobsthalOrder(n: nat): (order: seq<nat>)
    ensures IsIndexPermutation(order, n)
  {
    if n == 0 then []
    else
      var J := JacobTable(n);
      WindowsListOnce(J, n, 2, 1);
      ToZeroBasedPermutation(Windows(J, n, 2, 1), n);
      ToZeroBased(Windows(J, n, 2, 1))
  }

  /** The table for five pending elements. */
  lemma JacobTableFive()
    ensures JacobTable(5) == [0, 1, 1, 3, 5]
  {
    var J := JacobTable(5);
    assert Jacobsthal(2) == 1 && Jacobsthal(3) == 3 && Jacobsthal(4) == 5;
    assert |J| == 5 by {
      assert J[|J| - 1] == Jacobsthal(|J| - 1);
    }
  }

  /** For five pending elements the windows are `[1]`, `[3, 2]`, `[5, 4]`. */
  lemma WindowsFive()
    ensures Windows(JacobTable(5), 5, 2, 1) == [1, 3, 2, 5, 4]
  {
    JacobTableFive();
    var J := JacobTable(5);
    assert Windows(J, 5, 4, 4) == [5, 4];
    assert Windows(J, 5, 3, 2) == [3, 2] + [5, 4];
  }

  /** For five pending elements the 0-based schedule is `0, 2, 1, 4, 3`. */
  lemma JacobsthalOrderExample()
    ensures JacobsthalOrder(5) == [0, 2, 1, 4, 3]
  {
    WindowsFive();
    var z := ToZeroBased([1, 3, 2, 5, 4]);
    assert z[0] == 0 && z[1] == 2 && z[2] == 1 && z[3] == 4 && z[4] == 3;
  }
}
