/** Day 1, the expense report: the first two entries, and the first two
    entries with a third completing them, that sum to 2020. */
module Expenses {
  import opened Common

  const Target := 2020

  /** Position (i', j') comes before (i, j) in the nested loops' order. */
  predicate Before(i': nat, j': nat, i: nat, j: nat)
  {
    i' < i || (i' == i && j' < j)
  }

  /** Part 1 accepts the entries at `i` and `j` (possibly the same one). */
  predicate PairSums(entries: seq<int>, i: nat, j: nat)
  {
    i < |entries| && j < |entries| && entries[i] + entries[j] == Target
  }

  /** Part 2 accepts the entries at `i` and `j` when the rest of the target
      is also an entry. */
  predicate TripleCompletes(entries: seq<int>, i: nat, j: nat)
  {
    i < |entries| && j < |entries| && Target - entries[i] - entries[j] in entries
  }

  /** Part 1 of `main`: the product of the first pair in nested order, or
      nothing when no pair sums to the target. */
  method FindPair(entries: seq<int>) returns (answer: Option<int>, ghost i: nat, ghost j: nat)
    ensures answer.None? <==> forall i': nat, j': nat :: !PairSums(entries, i', j')
    ensures answer.Some? ==> PairSums(entries, i, j) && answer.value == entries[i] * entries[j]
    ensures answer.Some? ==> forall i': nat, j': nat :: Before(i', j', i, j) ==> !PairSums(entries, i', j')
  {
    var a := 0;
    while a < |entries|
      invariant 0 <= a <= |entries|
      invariant forall i': nat, j': nat :: i' < a ==> !PairSums(entries, i', j')
    {
      var b := 0;
      while b < |entries|
        invariant 0 <= b <= |entries|
        invariant forall j': nat :: j' < b ==> !PairSums(entries, a, j')
      {
        if entries[a] + entries[b] == Target {
          assert PairSums(entries, a, b);
          return Some(entries[a] * entries[b]), a, b;
        }
        b := b + 1;
      }
      a := a + 1;
    }
    return None, 0, 0;
  }

  /** Part 2 of `main`: the product of the first pair in nested order whose
      complement to the target is an entry, times that complement. */
  method FindTriple(entries: seq<int>) returns (answer: Option<int>, ghost i: nat, ghost j: nat)
    ensures answer.None? <==> forall i': nat, j': nat :: !TripleCompletes(entries, i', j')
    ensures answer.Some? ==> (TripleCompletes(entries, i, j) &&
              answer.value == entries[i] * entries[j] * (Target - entries[i] - entries[j]))
    ensures answer.Some? ==> forall i': nat, j': nat :: Before(i', j', i, j) ==> !TripleCompletes(entries, i', j')
  {
    var entrySet := set e | e in entries;
    var a := 0;
    while a < |entries|
      invariant 0 <= a <= |entries|
      invariant forall i': nat, j': nat :: i' < a ==> !TripleCompletes(entries, i', j')
    {
      var b := 0;
      while b < |entries|
        invariant 0 <= b <= |entries|
        invariant forall j': nat :: j' < b ==> !TripleCompletes(entries, a, j')
      {
        var candidate := Target - entries[a] - entries[b];
        if candidate in entrySet {
          assert TripleCompletes(entries, a, b);
          return Some(entries[a] * entries[b] * candidate), a, b;
        }
        b := b + 1;
      }
      a := a + 1;
    }
    return None, 0, 0;
  }

  /** Every pair is met in both orders, so the first pair found has its
      first index no later than its second. */
  lemma FirstPairOrdered(entries: seq<int>, i: nat, j: nat)
    requires PairSums(entries, i, j)
    requires forall i': nat, j': nat :: Before(i', j', i, j) ==> !PairSums(entries, i', j')
    ensures i <= j
  {
    if j < i {
      assert PairSums(entries, j, i);
      assert Before(j, i, i, j);
    }
  }

  /** Soundness of both parts: the factors reported are entries of the
      report and they sum to the target. */
  lemma TripleFactorsAreEntries(entries: seq<int>, i: nat, j: nat)
    requires TripleCompletes(entries, i, j)
    ensures exists k :: 0 <= k < |entries| &&
              entries[i] + entries[j] + entries[k] == Target
  {
    var c := Target - entries[i] - entries[j];
    var k :| 0 <= k < |entries| && entries[k] == c;
  }
}
