/** Day 9, the XMAS cipher: the first number that is not the sum of two
    numbers in the window before it, and the contiguous range summing to it. */
module Xmas {
  import opened Common

  /** The `size` numbers before position `idx`. */
  function Window(input: seq<int>, size: nat, idx: nat): (w: seq<int>)
    requires size <= idx <= |input|
    ensures |w| == size
  {
    input[idx - size..idx]
  }

  /** The number at `idx` is the sum of two numbers of its window; the same
      window entry may serve as both addends. */
  predicate HasPair(input: seq<int>, size: nat, idx: nat)
    requires size <= idx < |input|
  {
    exists w :: w in Window(input, size, idx) && input[idx] - w in Window(input, size, idx)
  }

  /** The inner search of `find_invalid`: each window entry in turn, asking
      the window for the complement. */
  method PairExists(input: seq<int>, size: nat, idx: nat) returns (found: bool)
    requires size <= idx < |input|
    ensures found <==> HasPair(input, size, idx)
  {
    var window := Window(input, size, idx);
    var candidate := input[idx];
    found := false;
    var j := 0;
    while j < |window|
      invariant 0 <= j <= |window|
      invariant forall k :: 0 <= k < j ==> candidate - window[k] !in window
    {
      if candidate - window[j] in window {
        found := true;
        return;
      }
      j := j + 1;
    }
  }

  /** `find_invalid`: the first number from position `size` on that is not a
      pair sum of its window, returned with its position. The source panics
      when there is none, so one is required. */
  method FindInvalid(input: seq<int>, size: nat) returns (r: int, at: nat)
    requires exists idx :: size <= idx < |input| && !HasPair(input, size, idx)
    ensures size <= at < |input| && r == input[at]
    ensures !HasPair(input, size, at)
    ensures forall k :: size <= k < at ==> HasPair(input, size, k)
  {
    var idx := size;
    while idx < |input|
      invariant size <= idx <= |input|
      invariant forall k :: size <= k < idx ==> HasPair(input, size, k)
    {
      var found := PairExists(input, size, idx);
      if !found {
        return input[idx], idx;
      }
      idx := idx + 1;
    }
    assert false;
  }

  /** The outcome of the contiguous-range search: the weakness, a panic of
      the source (a slice past the end, or the minimum of an empty range), or
      the fuel bound reached. */
  datatype Search = Weakness(value: int) | Panicked | Exhausted

  /** One update of the search window: grow it while its sum is below the
      target (or it is empty), shrink it from the front while above. */
  function Advance(start: nat, end: nat, sum: int, target: int): (next: (nat, nat))
    requires start <= end && sum != target
    ensures next.0 <= next.1
    ensures start <= next.0 && end <= next.1 && start + end < next.0 + next.1
    ensures sum < target ==> next == (start, end + 1)
    ensures sum > target && start < end ==> next == (start + 1, end)
  {
    var end' := if sum < target || start == end then end + 1 else end;
    var start' := if sum > target then start + 1 else start;
    (start', end')
  }

  /** `find_encryption_weakness` from the window [start, end), for at most
      `fuel` window updates. A weakness is the smallest plus the largest
      number of a contiguous range of at least one number summing to the
      target. */
  function SearchFrom(input: seq<int>, target: int, start: nat, end: nat, fuel: nat): (r: Search)
    requires start <= end
    ensures r.Weakness? ==>
              exists s, e :: start <= s < e <= |input| && Sum(input[s..e]) == target &&
                r.value == Min(input[s..e]) + Max(input[s..e])
    decreases fuel
  {
    if end > |input| then Panicked
    else
      var sum := Sum(input[start..end]);
      if sum == target then
        if start == end then Panicked
        else Weakness(Min(input[start..end]) + Max(input[start..end]))
      else if fuel == 0 then Exhausted
      else
        var next := Advance(start, end, sum, target);
        SearchFrom(input, target, next.0, next.1, fuel - 1)
  }

  /** The search proper, from the window holding the first number. */
  function FindEncryptionWeakness(input: seq<int>, target: int, fuel: nat): (r: Search)
    ensures r.Weakness? ==>
              exists s, e :: 0 <= s < e <= |input| && Sum(input[s..e]) == target &&
                r.value == Min(input[s..e]) + Max(input[s..e])
  {
    SearchFrom(input, target, 0, 1, fuel)
  }

  /** More fuel never changes a result the search has reached. */
  lemma {:induction false} SearchFuelMonotone(input: seq<int>, target: int, start: nat, end: nat, fuel: nat, more: nat)
    requires start <= end && fuel <= more
    requires !SearchFrom(input, target, start, end, fuel).Exhausted?
    ensures SearchFrom(input, target, start, end, more) == SearchFrom(input, target, start, end, fuel)
    decreases fuel
  {
    if end <= |input| {
      var sum := Sum(input[start..end]);
      if sum != target {
        var next := Advance(start, end, sum, target);
        SearchFuelMonotone(input, target, next.0, next.1, fuel - 1, more - 1);
      }
    }
  }

  /** The puzzle's worked example. */
  const Example: seq<int> := [35, 20, 15, 25, 47, 40, 62, 55, 65, 95, 102, 117, 150, 182, 127, 219, 299, 277, 309, 576]

  /** The number at `idx` is the sum of the numbers at `i` and `j` of its
      window. */
  lemma PairAt(input: seq<int>, size: nat, idx: nat, i: nat, j: nat)
    requires size <= idx < |input|
    requires idx - size <= i < idx && idx - size <= j < idx
    requires input[idx] == input[i] + input[j]
    ensures HasPair(input, size, idx)
  {
    var w := Window(input, size, idx);
    assert w[i - (idx - size)] == input[i];
    assert w[j - (idx - size)] == input[j];
    assert input[i] in w && input[idx] - input[i] in w;
  }

  /** With a window of 5, the numbers at positions 5 to 13 of the example
      have pairs, and 127 at position 14 is the first that does not. */
  lemma ExampleFirstInvalid()
    ensures forall k :: 5 <= k < 14 ==> HasPair(Example, 5, k)
    ensures !HasPair(Example, 5, 14)
  {
    forall k | 5 <= k < 14
      ensures HasPair(Example, 5, k)
    {
      ExamplePair(k);
    }
    assert Window(Example, 5, 14) == [95, 102, 117, 150, 182];
  }

  lemma ExamplePair(k: nat)
    requires 5 <= k < 14
    ensures HasPair(Example, 5, k)
  {
    var i, j := ExamplePairIndices(k);
    PairAt(Example, 5, k, i, j);
  }

  /** Two positions of the window of 5 before position `k` whose numbers
      sum to the number at `k`. */
  lemma ExamplePairIndices(k: nat) returns (i: nat, j: nat)
    requires 5 <= k < 14
    ensures k - 5 <= i < k && k - 5 <= j < k
    ensures Example[k] == Example[i] + Example[j]
  {
    var pairs := [(2, 3), (2, 4), (2, 5), (3, 5), (5, 7), (5, 6), (6, 7), (7, 9), (8, 11)];
    i, j := pairs[k - 5].0, pairs[k - 5].1;
  }

  method ExamplePart1() returns (r: int)
    ensures r == 127
  {
    ExampleFirstInvalid();
    ghost var at;
    r, at := FindInvalid(Example, 5);
  }

  /** The search over the example: the window grows to [0, 5), then slides
      to [2, 6), whose numbers 15, 25, 47, 40 sum to 127. */
  lemma ExampleWeakness(e: seq<int>)
    requires e == Example
    ensures FindEncryptionWeakness(e, 127, 7) == Weakness(62)
  {
    ExampleSumsGrowing(e);
    ExampleSumsSliding(e);
    SearchStep(e, 127, 0, 1, 7, 35);
    SearchStep(e, 127, 0, 2, 6, 55);
    SearchStep(e, 127, 0, 3, 5, 70);
    SearchStep(e, 127, 0, 4, 4, 95);
    SearchStep(e, 127, 0, 5, 3, 142);
    SearchStep(e, 127, 1, 5, 2, 107);
    SearchStep(e, 127, 1, 6, 1, 147);
    ExampleFound(e);
  }

  lemma ExampleFound(e: seq<int>)
    requires e == Example
    ensures SearchFrom(e, 127, 2, 6, 0) == Weakness(62)
  {
    ExampleSumsSliding(e);
    var r := e[2..6];
    assert e[2] == 15 && e[3] == 25 && e[4] == 47 && e[5] == 40;
    assert r == [15, 25, 47, 40];
    ExampleExtremes(r);
  }

  lemma ExampleExtremes(r: seq<int>)
    requires r == [15, 25, 47, 40]
    ensures Min(r) == 15 && Max(r) == 47
  {
    var r3, r2, r1 := r[..3], r[..3][..2], r[..3][..2][..1];
    assert r3 == [15, 25, 47] && r2 == [15, 25] && r1 == [15];
    assert Min(r1) == 15 && Max(r1) == 15;
    assert Min(r2) == 15 && Max(r2) == 25;
    assert Min(r3) == 15 && Max(r3) == 47;
  }

  /** One update of the search, from a window whose sum is known. */
  lemma SearchStep(input: seq<int>, target: int, start: nat, end: nat, fuel: nat, sum: int)
    requires start <= end <= |input| && 0 < fuel
    requires Sum(input[start..end]) == sum && sum != target
    ensures var next := Advance(start, end, sum, target);
      SearchFrom(input, target, start, end, fuel) == SearchFrom(input, target, next.0, next.1, fuel - 1)
  {
  }

  lemma SumExtend(s: seq<int>, a: nat, b: nat)
    requires a <= b < |s|
    ensures Sum(s[a..b + 1]) == Sum(s[a..b]) + s[b]
  {
    assert s[a..b + 1][..b - a] == s[a..b];
  }

  lemma ExampleSumsGrowing(e: seq<int>)
    requires e == Example
    ensures Sum(e[0..1]) == 35 && Sum(e[0..2]) == 55 && Sum(e[0..3]) == 70
    ensures Sum(e[0..4]) == 95 && Sum(e[0..5]) == 142
  {
    assert e[0..0] == [];
    SumExtend(e, 0, 0);
    SumExtend(e, 0, 1);
    SumExtend(e, 0, 2);
    SumExtend(e, 0, 3);
    SumExtend(e, 0, 4);
  }

  lemma ExampleSumsSliding(e: seq<int>)
    requires e == Example
    ensures Sum(e[1..5]) == 107 && Sum(e[1..6]) == 147 && Sum(e[2..6]) == 127
  {
    ExampleSumsFromOne(e);
    ExampleSumsFromTwo(e);
  }

  lemma ExampleSumsFromOne(e: seq<int>)
    requires e == Example
    ensures Sum(e[1..5]) == 107 && Sum(e[1..6]) == 147
  {
    assert e[1..1] == [];
    SumExtend(e, 1, 1);
    SumExtend(e, 1, 2);
    SumExtend(e, 1, 3);
    SumExtend(e, 1, 4);
    SumExtend(e, 1, 5);
  }

  lemma ExampleSumsFromTwo(e: seq<int>)
    requires e == Example
    ensures Sum(e[2..6]) == 127
  {
    assert e[2..2] == [];
    SumExtend(e, 2, 2);
    SumExtend(e, 2, 3);
    SumExtend(e, 2, 4);
    SumExtend(e, 2, 5);
  }
}
