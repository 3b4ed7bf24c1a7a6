/** Day 10, the adapter chain: the distribution of joltage differences along
    the sorted chain, and the number of ways to arrange adapters from the
    outlet (0 jolts) to the last adapter with every step at most 3 jolts. */
module Adapters {
  import opened Common

  /** The difference each adapter of the sorted chain adds over the one
      before it, the first one measured from the outlet at 0. */
  function Gaps(s: seq<int>): (g: seq<int>)
    ensures |g| == |s|
  {
    seq(|s|, i requires 0 <= i < |s| => s[i] - (if i == 0 then 0 else s[i - 1]))
  }

  /** The differences telescope: together they climb from the outlet to the
      last adapter. */
  lemma {:induction false} GapsTelescope(s: seq<int>)
    requires |s| > 0
    ensures Sum(Gaps(s)) == s[|s| - 1]
    decreases |s|
  {
    if |s| > 1 {
      var t := s[..|s| - 1];
      GapsTelescope(t);
      assert Gaps(s)[..|s| - 1] == Gaps(t);
    }
  }

  /** `pt1`: sort, then count the differences of 1 and of 3 along the chain;
      the device adds one more difference of 3. */
  method Part1(adapters: seq<int>) returns (r: int)
    ensures var g := Gaps(Sort(adapters));
      r == Occurrences(g, 1) * (Occurrences(g, 3) + 1)
  {
    var s := Sort(adapters);
    var ones, threes := CountGaps(s);
    var t := threes + 1;
    assert t == Occurrences(Gaps(s), 3) + 1;
    r := Mul(ones, t);
  }

  /** The loop of `pt1` over an already sorted chain. */
  method CountGaps(s: seq<int>) returns (ones: nat, threes: nat)
    ensures ones == Occurrences(Gaps(s), 1)
    ensures threes == Occurrences(Gaps(s), 3)
  {
    var cur := 0;
    ones, threes := 0, 0;
    var i := 0;
    while i < |s|
      invariant 0 <= i <= |s|
      invariant cur == (if i == 0 then 0 else s[i - 1])
      invariant ones == Occurrences(Gaps(s)[..i], 1)
      invariant threes == Occurrences(Gaps(s)[..i], 3)
    {
      var a := s[i];
      GapStep(s, i, cur);
      if a - cur == 1 {
        ones := ones + 1;
      }
      if a - cur == 3 {
        threes := threes + 1;
      }
      cur := a;
      i := i + 1;
    }
    assert Gaps(s)[..i] == Gaps(s);
  }

  /** One pass of the loop of `pt1`: the next adapter's difference from the
      previous one is the next gap, and each count grows by whether the gap
      is its value. */
  lemma GapStep(s: seq<int>, i: nat, cur: int)
    requires i < |s| && cur == (if i == 0 then 0 else s[i - 1])
    ensures Occurrences(Gaps(s)[..i + 1], 1) ==
              Occurrences(Gaps(s)[..i], 1) + (if s[i] - cur == 1 then 1 else 0)
    ensures Occurrences(Gaps(s)[..i + 1], 3) ==
              Occurrences(Gaps(s)[..i], 3) + (if s[i] - cur == 3 then 1 else 0)
  {
    var g := Gaps(s);
    assert g[i] == s[i] - cur;
    OccurrencesSnoc(g, i, 1);
    OccurrencesSnoc(g, i, 3);
  }

  lemma OccurrencesSnoc(g: seq<int>, i: nat, x: int)
    requires i < |g|
    ensures Occurrences(g[..i + 1], x) == Occurrences(g[..i], x) + (if g[i] == x then 1 else 0)
  {
    assert g[..i + 1][..i] == g[..i];
  }

  /** The number of ways to go from the first element of `t` to its last,
      each step moving to a later element at most 3 above the current one.
      The empty and the one-element sequence have the single empty way. */
  function Paths(t: seq<int>): nat
    decreases |t|, 2, 0
  {
    if |t| <= 1 then 1 else PathSum(t, 1, |t|)
  }

  /** Ways through each of the elements `lo..hi` as the first step. */
  function PathSum(t: seq<int>, lo: nat, hi: nat): nat
    requires 1 <= lo && hi <= |t|
    decreases |t|, 1, hi - lo
  {
    if lo >= hi then 0 else FirstStep(t, lo) + PathSum(t, lo + 1, hi)
  }

  /** Ways that take element `j` as the first step. */
  function FirstStep(t: seq<int>, j: nat): nat
    requires 1 <= j < |t|
    decreases |t|, 0, 0
  {
    if t[j] - t[0] <= 3 then Paths(t[j..]) else 0
  }

  /** `find_combinations`: the first element's successors within 3 are tried
      in order, stopping at the first one further away. */
  function FindCombinations(t: seq<int>): (n: nat)
    decreases |t|, 1, 0
  {
    if |t| <= 1 then 1 else CombinationsFrom(t, 1)
  }

  function CombinationsFrom(t: seq<int>, idx: nat): nat
    requires 1 <= idx
    decreases |t|, 0, |t| - idx
  {
    if idx >= |t| then 0
    else if t[idx] - t[0] <= 3 then FindCombinations(t[idx..]) + CombinationsFrom(t, idx + 1)
    else 0
  }

  /** On sorted input the early stop loses nothing: `find_combinations`
      counts exactly the ways through the sequence. */
  lemma {:induction false} CombinationsArePaths(t: seq<int>)
    requires Sorted(t)
    ensures FindCombinations(t) == Paths(t)
    decreases |t|, 1
  {
    if |t| > 1 {
      CombinationsFromIsPathSum(t, 1);
    }
  }

  lemma {:induction false} CombinationsFromIsPathSum(t: seq<int>, idx: nat)
    requires Sorted(t) && 1 <= idx <= |t|
    ensures CombinationsFrom(t, idx) == PathSum(t, idx, |t|)
    decreases |t|, 0, |t| - idx
  {
    if idx < |t| {
      if t[idx] - t[0] <= 3 {
        assert Sorted(t[idx..]);
        CombinationsArePaths(t[idx..]);
        CombinationsFromIsPathSum(t, idx + 1);
      } else {
        BeyondReachIsZero(t, idx, |t|);
      }
    }
  }

  /** Once an element is more than 3 above the first, so is every later one
      of a sorted sequence, and none of them is a first step. */
  lemma {:induction false} BeyondReachIsZero(t: seq<int>, lo: nat, hi: nat)
    requires Sorted(t) && 1 <= lo <= hi <= |t|
    requires lo < |t| ==> t[lo] - t[0] > 3
    ensures PathSum(t, lo, hi) == 0
    decreases hi - lo
  {
    if lo < hi {
      BeyondReachIsZero(t, lo + 1, hi);
    }
  }

  /** `find_run`: the end of the run starting at `cur`, the first index whose
      difference from its predecessor exceeds 2, or the length. */
  method FindRun(s: seq<int>, cur: nat) returns (r: nat)
    requires cur < |s|
    ensures cur < r <= |s|
    ensures forall k :: cur < k < r ==> s[k] - s[k - 1] <= 2
    ensures r == |s| || s[r] - s[r - 1] > 2
  {
    r := cur + 1;
    while r < |s|
      invariant cur < r <= |s|
      invariant forall k :: cur < k < r ==> s[k] - s[k - 1] <= 2
    {
      if s[r] - s[r - 1] > 2 {
        break;
      }
      r := r + 1;
    }
  }

  /** Adapters that form a chain: strictly increasing, no step above 3. */
  predicate Chain(s: seq<int>)
  {
    && (forall i :: 0 < i < |s| ==> s[i - 1] < s[i])
    && (forall i :: 0 < i < |s| ==> s[i] - s[i - 1] <= 3)
  }

  /** `pt2`: add the outlet, sort, and multiply the arrangements of each run
      between differences of 3. When the adapters form a chain, this is the
      number of ways from the outlet to the last adapter. */
  method Part2(adapters: seq<int>) returns (combinations: int)
    ensures Chain(Sort(adapters + [0])) ==> combinations == Paths(Sort(adapters + [0]))
  {
    var s := Sort(adapters + [0]);
    var cur := 0;
    combinations := 1;
    while cur < |s|
      invariant 0 <= cur <= |s|
      invariant Chain(s) ==> combinations * Paths(s[cur..]) == Paths(s)
      decreases |s| - cur
    {
      var next := FindRun(s, cur);
      var ways := FindCombinations(s[cur..next]);
      if Chain(s) {
        RunStep(s, cur, next, combinations);
      }
      combinations := Mul(combinations, ways);
      cur := next;
    }
    assert Paths(s[cur..]) == 1;
  }

  /** One iteration of `pt2`: multiplying in the run's arrangements moves
      the product on to the next run. */
  lemma RunStep(s: seq<int>, cur: nat, next: nat, c: int)
    requires Sorted(s) && Chain(s) && cur < next <= |s|
    requires forall k :: cur < k < next ==> s[k] - s[k - 1] <= 2
    requires next == |s| || s[next] - s[next - 1] > 2
    requires c * Paths(s[cur..]) == Paths(s)
    ensures c * FindCombinations(s[cur..next]) * Paths(s[next..]) == Paths(s)
  {
    var run := s[cur..next];
    assert Sorted(run);
    CombinationsArePaths(run);
    RunSplits(s, cur, next);
    MulAssoc(c, FindCombinations(run), Paths(s[next..]));
  }

  /** The ways from `cur` split at the end of its run: a difference of 3
      cannot be stepped over, so every way passes from `r - 1` to `r`. */
  lemma RunSplits(s: seq<int>, cur: nat, r: nat)
    requires Chain(s) && cur < r <= |s|
    requires r == |s| || s[r] - s[r - 1] > 2
    ensures Paths(s[cur..]) == Paths(s[cur..r]) * Paths(s[r..])
  {
    if r == |s| {
      assert s[cur..] == s[cur..r];
      assert |s[r..]| == 0;
    } else {
      var t := s[cur..];
      ChainIncreases(s);
      assert ChainAt(t);
      SplitAtThree(t, r - cur);
      assert t[..r - cur] == s[cur..r];
      assert t[r - cur..] == s[r..];
    }
  }

  predicate ChainAt(t: seq<int>)
  {
    && (forall i, j :: 0 <= i < j < |t| ==> t[i] + (j - i) <= t[j])
    && (forall i :: 0 < i < |t| ==> t[i] - t[i - 1] <= 3)
  }

  lemma {:induction false} ChainIncreases(t: seq<int>)
    requires forall i :: 0 < i < |t| ==> t[i - 1] < t[i]
    ensures forall i, j :: 0 <= i < j < |t| ==> t[i] + (j - i) <= t[j]
    decreases |t|
  {
    if |t| > 1 {
      ChainIncreases(t[..|t| - 1]);
      forall i, j | 0 <= i < j < |t|
        ensures t[i] + (j - i) <= t[j]
      {
        if j == |t| - 1 && i < j - 1 {
          assert t[..|t| - 1][i] + (j - 1 - i) <= t[..|t| - 1][j - 1];
        } else if j < |t| - 1 {
          assert t[..|t| - 1][i] + (j - i) <= t[..|t| - 1][j];
        }
      }
    }
  }

  /** A chain with a difference of exactly 3 before index `r`: the ways
      through it are the ways up to `r - 1` times the ways from `r`. */
  lemma {:induction false} SplitAtThree(t: seq<int>, r: nat)
    requires ChainAt(t) && 0 < r < |t| && t[r] - t[r - 1] > 2
    ensures Paths(t) == Paths(t[..r]) * Paths(t[r..])
    decreases |t|, 1, 0
  {
    if r == 1 {
      assert FirstStep(t, 1) == Paths(t[1..]);
      BeyondReachIsZeroChain(t, 1, 2, |t|);
      assert PathSum(t, 1, |t|) == FirstStep(t, 1) + PathSum(t, 2, |t|);
    } else {
      PathSumSplit(t, 1, r, |t|);
      BeyondReachIsZeroChain(t, r, r, |t|);
      PrefixSteps(t, r, 1);
    }
  }

  /** In a chain with a difference above 2 at index `k`, every element from
      `lo` on (`lo` at least `k` and at least 2) is more than 3 above the
      first, so none of them is a first step. */
  lemma {:induction false} BeyondReachIsZeroChain(t: seq<int>, k: nat, lo: nat, hi: nat)
    requires ChainAt(t) && 0 < k <= lo && k < |t| && 2 <= lo <= hi <= |t|
    requires t[k] - t[k - 1] > 2
    ensures PathSum(t, lo, hi) == 0
    decreases hi - lo
  {
    if lo < hi {
      if k == 1 {
        assert t[1] + (lo - 1) <= t[lo];
      } else {
        assert t[0] + (k - 1) <= t[k - 1];
        if k < lo {
          assert t[k] + (lo - k) <= t[lo];
        }
      }
      BeyondReachIsZeroChain(t, k, lo + 1, hi);
    }
  }

  lemma {:induction false} PathSumSplit(t: seq<int>, lo: nat, mid: nat, hi: nat)
    requires 1 <= lo <= mid <= hi <= |t|
    ensures PathSum(t, lo, hi) == PathSum(t, lo, mid) + PathSum(t, mid, hi)
    decreases mid - lo
  {
    if lo < mid {
      PathSumSplit(t, lo + 1, mid, hi);
    }
  }

  /** Each first step inside the prefix: the ways from element `j` through
      the whole chain are the ways through the prefix times the ways from
      `r`, summed over the steps `j..r - 1`. */
  lemma {:induction false} PrefixSteps(t: seq<int>, r: nat, j: nat)
    requires ChainAt(t) && 1 < r < |t| && t[r] - t[r - 1] > 2
    requires 1 <= j <= r
    ensures PathSum(t, j, r) == PathSum(t[..r], j, r) * Paths(t[r..])
    decreases |t|, 0, r - j
  {
    if j < r {
      PrefixSteps(t, r, j + 1);
      var u := t[..r];
      FirstStepPrefix(t, r, j);
      assert PathSum(t, j, r) == FirstStep(t, j) + PathSum(t, j + 1, r);
      assert PathSum(u, j, r) == FirstStep(u, j) + PathSum(u, j + 1, r);
      Distribute(FirstStep(u, j), PathSum(u, j + 1, r), Paths(t[r..]));
    }
  }

  /** A first step inside the prefix: its ways through the whole chain are
      its ways through the prefix times the ways from `r`. */
  lemma FirstStepPrefix(t: seq<int>, r: nat, j: nat)
    requires ChainAt(t) && 1 < r < |t| && t[r] - t[r - 1] > 2
    requires 1 <= j < r
    ensures FirstStep(t, j) == FirstStep(t[..r], j) * Paths(t[r..])
    decreases |t|, 0, 0
  {
    var u := t[..r];
    if t[j] - t[0] <= 3 {
      if j == r - 1 {
        SplitLast(t, r);
      } else {
        SuffixSplit(t, r, j);
      }
      assert FirstStep(u, j) == Paths(u[j..]);
    }
  }

  /** The ways from element `j` before the gap at `r` are the ways from `j`
      up to the gap times the ways from `r`. */
  lemma SuffixSplit(t: seq<int>, r: nat, j: nat)
    requires ChainAt(t) && 1 <= j < r - 1 && r < |t| && t[r] - t[r - 1] > 2
    ensures Paths(t[j..]) == Paths(t[..r][j..]) * Paths(t[r..])
    decreases |t| - j, 2, 0
  {
    var w := t[j..];
    ChainSuffix(t, j);
    SplitAtThree(w, r - j);
    assert w[..r - j] == t[..r][j..];
    assert w[r - j..] == t[r..];
  }

  /** A suffix of a chain is a chain. */
  lemma ChainSuffix(t: seq<int>, j: nat)
    requires ChainAt(t) && j <= |t|
    ensures ChainAt(t[j..])
  {
    var w := t[j..];
    forall a, b | 0 <= a < b < |w|
      ensures w[a] + (b - a) <= w[b]
    {
      assert w[a] == t[j + a] && w[b] == t[j + b];
    }
    forall a | 0 < a < |w|
      ensures w[a] - w[a - 1] <= 3
    {
      assert w[a] == t[j + a] && w[a - 1] == t[j + a - 1];
    }
  }

  /** From the element just before a difference of 3 the only step is to the
      next element. */
  lemma SplitLast(t: seq<int>, r: nat)
    requires ChainAt(t) && 1 <= r < |t| && t[r] - t[r - 1] > 2
    ensures Paths(t[r - 1..]) == Paths(t[r..])
  {
    var w := t[r - 1..];
    assert |w| >= 2;
    assert FirstStep(w, 1) == Paths(t[r..]) by {
      assert w[1..] == t[r..];
    }
    assert PathSum(w, 1, |w|) == FirstStep(w, 1) + PathSum(w, 2, |w|);
    if |w| > 2 {
      assert ChainAt(w);
      BeyondReachIsZeroChain(w, 1, 2, |w|);
    }
  }

  /** The result of `pt1` depends only on which adapters there are, not on
      the order they are listed in. */
  lemma Part1IgnoresOrder(a: seq<int>, b: seq<int>)
    requires multiset(a) == multiset(b)
    ensures Gaps(Sort(a)) == Gaps(Sort(b))
  {
    SortedPermutationUnique(Sort(a), Sort(b));
  }

  /** The first example of the tests, in the tests' order: 7 differences
      of 1 and 4 of 3, so `pt1` answers 7 * (4 + 1) = 35. */
  lemma ExamplePart1(e: seq<int>)
    requires e == [16, 10, 15, 5, 1, 11, 7, 19, 6, 12, 4]
    ensures var g := Gaps(Sort(e));
      Occurrences(g, 1) * (Occurrences(g, 3) + 1) == 35
  {
    var sorted := ExampleSorted(e);
    ExampleGaps(sorted);
  }

  /** Sorting the example gives its ascending list. */
  lemma ExampleSorted(e: seq<int>) returns (sorted: seq<int>)
    requires e == [16, 10, 15, 5, 1, 11, 7, 19, 6, 12, 4]
    ensures sorted == [1, 4, 5, 6, 7, 10, 11, 12, 15, 16, 19] && Sort(e) == sorted
  {
    sorted := [1, 4, 5, 6, 7, 10, 11, 12, 15, 16, 19];
    ExampleSameAdapters(e, sorted);
    SortedPermutationUnique(Sort(e), sorted);
  }

  /** The example's adapters and their ascending list are distinct and
      the same adapters, hence the same multiset. */
  lemma ExampleSameAdapters(e: seq<int>, sorted: seq<int>)
    requires e == [16, 10, 15, 5, 1, 11, 7, 19, 6, 12, 4]
    requires sorted == [1, 4, 5, 6, 7, 10, 11, 12, 15, 16, 19]
    ensures Sorted(sorted) && multiset(sorted) == multiset(e)
  {
    ExampleDistinct(e);
    AscendingDistinct(sorted);
    ExampleMembers(e, sorted);
    SameMembersSameMultiset(e, sorted);
  }

  lemma ExampleDistinct(e: seq<int>)
    requires e == [16, 10, 15, 5, 1, 11, 7, 19, 6, 12, 4]
    ensures Distinct(e)
  {
  }

  lemma AscendingDistinct(sorted: seq<int>)
    requires sorted == [1, 4, 5, 6, 7, 10, 11, 12, 15, 16, 19]
    ensures Distinct(sorted) && Sorted(sorted)
  {
  }

  lemma ExampleMembers(e: seq<int>, sorted: seq<int>)
    requires e == [16, 10, 15, 5, 1, 11, 7, 19, 6, 12, 4]
    requires sorted == [1, 4, 5, 6, 7, 10, 11, 12, 15, 16, 19]
    ensures forall x :: x in e <==> x in sorted
  {
  }

  lemma ExampleGaps(sorted: seq<int>)
    requires sorted == [1, 4, 5, 6, 7, 10, 11, 12, 15, 16, 19]
    ensures Occurrences(Gaps(sorted), 1) == 7 && Occurrences(Gaps(sorted), 3) == 4
    ensures Occurrences(Gaps(sorted), 1) * (Occurrences(Gaps(sorted), 3) + 1) == 35
  {
    var g := Gaps(sorted);
    assert g == [1, 3, 1, 1, 1, 3, 1, 1, 3, 1, 3];
    ExampleCounts(g);
  }

  lemma ExampleCounts(g: seq<int>)
    requires g == [1, 3, 1, 1, 1, 3, 1, 1, 3, 1, 3]
    ensures Occurrences(g, 1) == 7 && Occurrences(g, 3) == 4
  {
    assert multiset(g) == multiset{1, 3, 1, 1, 1, 3, 1, 1, 3, 1, 3};
  }
}
