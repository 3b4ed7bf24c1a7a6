/** Day 2, password policies: each entry names two numbers, a letter and a
    password, read under the sled rental's policy and the toboggan
    corporation's. */
module Passwords {
  import opened Common

  datatype Entry = Entry(min: nat, max: nat, letter: char, password: string)

  /** Part 1: the letter occurs between `min` and `max` times, inclusive. */
  predicate OccurrencePolicy(e: Entry)
  {
    e.min <= Occurrences(e.password, e.letter) <= e.max
  }

  /** Part 2 reads the one-based positions `min` and `max`; the source
      underflows or slices past the end unless both are positions of the
      password. */
  predicate PositionsExist(e: Entry)
  {
    1 <= e.min <= |e.password| && 1 <= e.max <= |e.password|
  }

  /** Part 2: exactly one of the two positions holds the letter. */
  predicate PositionPolicy(e: Entry)
    requires PositionsExist(e)
  {
    (e.password[e.min - 1] == e.letter) != (e.password[e.max - 1] == e.letter)
  }

  /** Part 2 for an entry whose positions exist. */
  predicate PositionValid(e: Entry)
  {
    PositionsExist(e) && PositionPolicy(e)
  }

  /** `main`'s loop: both counters over the entries. */
  method CountValid(entries: seq<Entry>) returns (pt1: nat, pt2: nat)
    requires forall i :: 0 <= i < |entries| ==> PositionsExist(entries[i])
    ensures pt1 == CountIf(entries, OccurrencePolicy) && pt1 <= |entries|
    ensures pt2 == CountIf(entries, PositionValid) && pt2 <= |entries|
  {
    pt1, pt2 := 0, 0;
    var i := 0;
    while i < |entries|
      invariant 0 <= i <= |entries|
      invariant pt1 == CountIf(entries[..i], OccurrencePolicy)
      invariant pt2 == CountIf(entries[..i], PositionValid)
    {
      CountPrefix(entries, i);
      pt1, pt2 := CheckEntry(entries[i], pt1, pt2);
      i := i + 1;
    }
    assert entries[..i] == entries;
  }

  /** One pass of the loop: each counter goes up when its policy holds. */
  method CheckEntry(e: Entry, pt1: nat, pt2: nat) returns (pt1': nat, pt2': nat)
    requires PositionsExist(e)
    ensures pt1' == pt1 + (if OccurrencePolicy(e) then 1 else 0)
    ensures pt2' == pt2 + (if PositionValid(e) then 1 else 0)
  {
    pt1', pt2' := pt1, pt2;
    var count := Occurrences(e.password, e.letter);
    if count >= e.min && count <= e.max {
      pt1' := pt1' + 1;
    }
    var firstMatch := e.password[e.min - 1] == e.letter;
    var secondMatch := e.password[e.max - 1] == e.letter;
    if firstMatch != secondMatch {
      pt2' := pt2' + 1;
    }
  }

  /** Extending the prefix by one entry adds that entry to each count. */
  lemma CountPrefix(entries: seq<Entry>, i: nat)
    requires i < |entries|
    ensures CountIf(entries[..i + 1], OccurrencePolicy) ==
              CountIf(entries[..i], OccurrencePolicy) + (if OccurrencePolicy(entries[i]) then 1 else 0)
    ensures CountIf(entries[..i + 1], PositionValid) ==
              CountIf(entries[..i], PositionValid) + (if PositionValid(entries[i]) then 1 else 0)
  {
    assert entries[..i + 1][..i] == entries[..i];
  }

  /** A password valid under part 2 contains the letter. */
  lemma PositionPolicyNeedsLetter(e: Entry)
    requires PositionsExist(e) && PositionPolicy(e)
    ensures Occurrences(e.password, e.letter) >= 1
  {
    var i := if e.password[e.min - 1] == e.letter then e.min - 1 else e.max - 1;
    assert e.password[i] in multiset(e.password);
  }

  /** Naming one position twice never satisfies part 2. */
  lemma SamePositionNeverValid(e: Entry)
    requires PositionsExist(e) && e.min == e.max
    ensures !PositionPolicy(e)
  {
  }

  /** The worked examples of the puzzle: the first entry is valid under both
      policies, the second under neither, the third under part 1 only. */
  lemma ExampleBoth(e: Entry)
    requires e == Entry(1, 3, 'a', "abcde")
    ensures OccurrencePolicy(e) && PositionPolicy(e)
  {
    assert Occurrences("abcde", 'a') == 1;
  }

  lemma ExampleNeither(e: Entry)
    requires e == Entry(1, 3, 'b', "cdefg")
    ensures !OccurrencePolicy(e) && !PositionPolicy(e)
  {
    assert Occurrences("cdefg", 'b') == 0;
  }

  lemma ExampleFirstOnly(e: Entry)
    requires e == Entry(2, 9, 'c', "ccccccccc")
    ensures OccurrencePolicy(e) && !PositionPolicy(e)
  {
    assert Occurrences("ccccccccc", 'c') == 9;
  }
}
