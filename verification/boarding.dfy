/** Day 5, boarding passes: binary space partitioning of rows and columns,
    the seat id, and the search for the one free seat in a run of ids. */
module Boarding {
  import opened Common

  /** The characters `proc_bsp` accepts; any other one makes it panic. */
  predicate BspString(s: string)
  {
    forall i :: 0 <= i < |s| ==> s[i] in "FBLR"
  }

  /** 'F' and 'L' keep the lower half, 'B' and 'R' the upper one. */
  function Bit(c: char): nat
  {
    if c == 'B' || c == 'R' then 1 else 0
  }

  /** Rust's `/ 2` on a signed integer, rounding toward zero. */
  function Halve(a: int): (h: int)
    ensures a >= 0 ==> h == a / 2
    ensures a < 0 ==> h == -((-a) / 2)
  {
    if a >= 0 then a / 2 else -((-a) / 2)
  }

  /** The loop of `proc_bsp` from the range [min, max] and current value
      `val`: each character halves the range around
      `mid = min + (max - min) / 2`, and once the range holds two numbers it
      picks one of them as the value instead. */
  function Walk(s: string, min: int, max: int, val: int): int
    requires BspString(s)
    decreases |s|
  {
    if |s| == 0 then val
    else
      var mid := min + Halve(max - min);
      if s[0] == 'F' || s[0] == 'L' then
        if max - min == 1 then Walk(s[1..], min, max, min) else Walk(s[1..], min, mid, val)
      else
        if max - min == 1 then Walk(s[1..], min, max, max) else Walk(s[1..], mid + 1, max, val)
  }

  /** `proc_bsp`. */
  function ProcBsp(s: string, min: int, max: int): int
    requires BspString(s)
  {
    Walk(s, min, max, 0)
  }

  /** The binary number the characters spell, most significant first, with
      'B' and 'R' as one. */
  function Binary(s: string): (v: nat)
    ensures v < Pow2(|s|)
  {
    if |s| == 0 then 0 else Bit(s[0]) * Pow2(|s| - 1) + Binary(s[1..])
  }

  /** Over a range of 2^n numbers, n characters select the number at the
      offset they spell in binary; the starting value is overwritten. */
  lemma {:induction false} WalkDecodes(s: string, min: int, max: int, val: int)
    requires BspString(s) && |s| >= 1
    requires max - min + 1 == Pow2(|s|)
    ensures Walk(s, min, max, val) == min + Binary(s)
    decreases |s|
  {
    if |s| == 1 {
      WalkLast(s, min, max, val);
    } else {
      var lo, hi := WalkFirst(s, min, max, val);
      WalkDecodes(s[1..], lo, hi, val);
    }
  }

  /** The last character picks one of the two numbers left. */
  lemma WalkLast(s: string, min: int, max: int, val: int)
    requires BspString(s) && |s| == 1 && max - min == 1
    ensures Walk(s, min, max, val) == min + Binary(s)
  {
    assert s[1..] == [];
    assert Pow2(0) == 1;
    assert Binary(s) == Bit(s[0]);
  }

  /** A character that leaves more than two numbers keeps the lower or the
      upper half [lo, hi], which the rest of the string then spells an
      offset in. */
  lemma WalkFirst(s: string, min: int, max: int, val: int) returns (lo: int, hi: int)
    requires BspString(s) && |s| >= 2
    requires max - min + 1 == Pow2(|s|)
    ensures BspString(s[1..]) && hi - lo + 1 == Pow2(|s| - 1)
    ensures Walk(s, min, max, val) == Walk(s[1..], lo, hi, val)
    ensures Binary(s) == (lo - min) + Binary(s[1..])
  {
    var half := HalfRange(|s|, min, max);
    assert BspString(s[1..]);
    if s[0] == 'F' || s[0] == 'L' {
      lo, hi := min, min + half - 1;
    } else {
      lo, hi := min + half, max;
    }
  }

  /** A range of 2^n numbers, n at least 2, halves into two ranges of
      2^(n-1) numbers, at least two each. */
  lemma HalfRange(n: nat, min: int, max: int) returns (half: nat)
    requires n >= 2 && max - min + 1 == Pow2(n)
    ensures half == Pow2(n - 1) && half >= 2
    ensures max - min == 2 * half - 1 && Halve(max - min) == half - 1
  {
    half := Pow2(n - 1);
    assert Pow2(n - 1) == 2 * Pow2(n - 2);
  }

  /** A row: seven of 'F'/'B' over rows 0 to 127. */
  lemma RowDecodes(row: string)
    requires BspString(row) && |row| == 7
    ensures ProcBsp(row, 0, 127) == Binary(row) && 0 <= ProcBsp(row, 0, 127) <= 127
  {
    assert Pow2(7) == 128 by {
      assert Pow2(3) == 8;
    }
    WalkDecodes(row, 0, 127, 0);
  }

  /** A column: three of 'L'/'R' over columns 0 to 7. */
  lemma ColumnDecodes(col: string)
    requires BspString(col) && |col| == 3
    ensures ProcBsp(col, 0, 7) == Binary(col) && 0 <= ProcBsp(col, 0, 7) <= 7
  {
    assert Pow2(3) == 8;
    WalkDecodes(col, 0, 7, 0);
  }

  /** The seat id: eight seats per row, so that for a column below 8 the
      row and column come back as the quotient and remainder by 8. */
  function SeatId(row: int, col: int): (id: int)
    ensures 0 <= col < 8 ==> id / 8 == row && id % 8 == col
  {
    row * 8 + col
  }

  lemma {:induction false} BinaryAppend(a: string, b: string)
    ensures Binary(a + b) == Binary(a) * Pow2(|b|) + Binary(b)
    decreases |a|
  {
    if |a| == 0 {
      assert a + b == b;
    } else {
      var ab := a + b;
      assert ab[1..] == a[1..] + b;
      BinaryAppend(a[1..], b);
      var top, rest, scale := Bit(a[0]) * Pow2(|a| - 1), Binary(a[1..]), Pow2(|b|);
      PowAdd(|a| - 1, |b|);
      assert Bit(a[0]) * Pow2(|ab| - 1) == top * scale by {
        assert |ab| - 1 == |a| - 1 + |b|;
        MulAssoc(Bit(a[0]), Pow2(|a| - 1), scale);
      }
      assert Binary(ab) == top * scale + (rest * scale + Binary(b));
      Distribute(top, rest, scale);
      assert Binary(a) == top + rest;
    }
  }

  lemma {:induction false} PowAdd(m: nat, n: nat)
    ensures Pow2(m + n) == Pow2(m) * Pow2(n)
    decreases m
  {
    if m > 0 {
      PowAdd(m - 1, n);
    }
  }

  /** A whole boarding pass is a ten-bit binary number, and that number is
      its seat id. */
  lemma PassIsBinary(pass: string)
    requires BspString(pass) && |pass| == 10
    ensures SeatId(ProcBsp(pass[..7], 0, 127), ProcBsp(pass[7..], 0, 7)) == Binary(pass)
    ensures 0 <= Binary(pass) < 1024
  {
    var row, col := pass[..7], pass[7..];
    assert BspString(row) && BspString(col);
    RowDecodes(row);
    ColumnDecodes(col);
    assert pass == row + col;
    BinaryAppend(row, col);
    PassPowers();
  }

  /** The powers of two a pass needs: 8 columns, and 1024 ids. */
  lemma PassPowers()
    ensures Pow2(3) == 8 && Pow2(10) == 1024
  {
    assert Pow2(3) == 8;
    PowAdd(7, 3);
    assert Pow2(7) == 128 by {
      PowAdd(4, 3);
      assert Pow2(4) == 16;
    }
  }

  /** The scan over sorted ids as the source writes it, `prev` being the id
      before position `i` or 0 for "none": stop at the first id that does not
      follow its predecessor and answer one past the predecessor. A previous
      id of 0 counts as "none". */
  function ScanFrom(s: seq<int>, i: nat, prev: int): (r: int)
    requires i <= |s|
    ensures r == prev + 1 || exists j :: i <= j < |s| && r == s[j] + 1
    ensures prev == 0 && i < |s| ==> exists j :: i <= j < |s| && r == s[j] + 1
    decreases |s| - i
  {
    if i == |s| then prev + 1
    else if prev != 0 && s[i] != prev + 1 then prev + 1
    else ScanFrom(s, i + 1, s[i])
  }

  /** The scan stops before position `i`: the id before it is not followed
      by its successor, unless that id is 0, which the scan takes for "no
      previous id". */
  predicate Breaks(s: seq<int>, i: nat)
    requires 0 < i < |s|
  {
    s[i - 1] != 0 && s[i] != s[i - 1] + 1
  }

  /** The seat search of the source, over the ids in any order: 1 when
      there are no ids, otherwise one past some id on the list. */
  function FindSeat(ids: seq<int>): (r: int)
    ensures |ids| == 0 ==> r == 1
    ensures |ids| > 0 ==> r - 1 in ids
  {
    SortSameMembers(ids);
    ScanFrom(Sort(ids), 0, 0)
  }

  /** The first position from `i` on before which the run breaks, or the
      length when it never does. */
  function RunEnd(s: seq<int>, i: nat): (k: nat)
    requires 1 <= i <= |s|
    ensures i <= k <= |s|
    ensures forall j :: i <= j < k ==> !Breaks(s, j)
    ensures k == |s| || Breaks(s, k)
    decreases |s| - i
  {
    if i == |s| || Breaks(s, i) then i else RunEnd(s, i + 1)
  }

  /** What the search answers: 1 for no ids; otherwise one past the id just
      before the first break of the run, or past the last id when the run
      never breaks. */
  lemma FindSeatIsRunEnd(ids: seq<int>)
    ensures |ids| == 0 ==> FindSeat(ids) == 1
    ensures |ids| > 0 ==> FindSeat(ids) == Sort(ids)[RunEnd(Sort(ids), 1) - 1] + 1
  {
    var s := Sort(ids);
    if |s| > 0 {
      assert FindSeat(ids) == ScanFrom(s, 1, s[0]);
      ScanStopsAtRunEnd(s, 1);
    }
  }

  lemma {:induction false} ScanStopsAtRunEnd(s: seq<int>, i: nat)
    requires 1 <= i <= |s|
    ensures ScanFrom(s, i, s[i - 1]) == s[RunEnd(s, i) - 1] + 1
    decreases |s| - i
  {
    if i < |s| && !Breaks(s, i) {
      ScanStopsAtRunEnd(s, i + 1);
    }
  }

  /** With an id 0 the scan does not start its run at 0: for the ids 0, 2
      and 3 it answers 4 although 1 is the free seat after the first id. */
  lemma ZeroIdSkipsGap(ids: seq<int>)
    requires ids == [0, 2, 3]
    ensures FindSeat(ids) == 4
    ensures 1 !in ids && 0 in ids && 2 in ids
  {
    GapIds(ids);
    FindSeatOfSorted(ids);
    ScanSkipsGap(ids);
  }

  /** The ids 0, 2 and 3 are sorted and leave 1 free. */
  lemma GapIds(ids: seq<int>)
    requires ids == [0, 2, 3]
    ensures Sorted(ids)
    ensures 1 !in ids && 0 in ids && 2 in ids
  {
  }

  /** Sorting leaves sorted ids alone, so the scan runs over them as given. */
  lemma FindSeatOfSorted(ids: seq<int>)
    requires Sorted(ids)
    ensures FindSeat(ids) == ScanFrom(ids, 0, 0)
  {
    SortKeepsSorted(ids);
  }

  lemma ScanSkipsGap(s: seq<int>)
    requires s == [0, 2, 3]
    ensures ScanFrom(s, 0, 0) == 4
  {
    assert ScanFrom(s, 3, 3) == 4;
    assert ScanFrom(s, 2, 2) == ScanFrom(s, 3, 3);
    assert ScanFrom(s, 1, 0) == ScanFrom(s, 2, 2);
    assert ScanFrom(s, 0, 0) == ScanFrom(s, 1, 0);
  }

  /** The scan with "no previous id" kept apart from every id. */
  function ScanFromFixed(s: seq<int>, i: nat, prev: Option<int>): int
    requires i <= |s|
    requires prev.Some? <==> i > 0
    decreases |s| - i
  {
    if i == |s| then (if prev.Some? then prev.value + 1 else 1)
    else if prev.Some? && s[i] != prev.value + 1 then prev.value + 1
    else ScanFromFixed(s, i + 1, Some(s[i]))
  }

  /** The seat search with the sentinel separated from the ids. */
  function FindSeatFixed(ids: seq<int>): int
  {
    ScanFromFixed(Sort(ids), 0, None)
  }

  /** Without an id 0 the sentinel never fires and the two searches agree. */
  lemma FixOnlyMattersAtZero(ids: seq<int>)
    requires forall i :: 0 <= i < |ids| ==> ids[i] > 0
    ensures FindSeat(ids) == FindSeatFixed(ids)
  {
    var s := Sort(ids);
    if |s| > 0 {
      assert s[0] in multiset(ids);
      assert forall v :: v in s ==> v > 0 by {
        forall v | v in s
          ensures v > 0
        {
          assert v in multiset(ids);
        }
      }
      ScansAgree(s, 1);
    }
  }

  lemma {:induction false} ScansAgree(s: seq<int>, i: nat)
    requires 1 <= i <= |s| && forall v :: v in s ==> v > 0
    ensures ScanFrom(s, i, s[i - 1]) == ScanFromFixed(s, i, Some(s[i - 1]))
    decreases |s| - i
  {
    if i < |s| {
      assert s[i - 1] in s && s[i - 1] != 0;
      ScansAgree(s, i + 1);
    }
  }

  /** For distinct ids the corrected search answers the first free id after
      the smallest: it is not taken, and every id from the smallest up to it
      is. */
  lemma FindSeatFixedIsFirstFree(ids: seq<int>)
    requires Distinct(ids) && |ids| > 0
    ensures FindSeatFixed(ids) !in ids
    ensures forall v :: Min(ids) <= v < FindSeatFixed(ids) ==> v in ids
  {
    var s := Sort(ids);
    SortKeepsDistinct(ids);
    SortSameMembers(ids);
    SortedMinFirst(ids);
    FixedScanRun(s, 1);
    assert FindSeatFixed(ids) == ScanFromFixed(s, 1, Some(s[0]));
  }

  /** Sorting keeps the ids. */
  lemma SortSameMembers(ids: seq<int>)
    ensures forall v :: v in ids <==> v in Sort(ids)
  {
    forall v
      ensures v in ids <==> v in Sort(ids)
    {
      assert v in ids <==> v in multiset(ids);
      assert v in Sort(ids) <==> v in multiset(Sort(ids));
    }
  }

  /** The smallest id comes first after sorting. */
  lemma SortedMinFirst(ids: seq<int>)
    requires |ids| > 0
    ensures |Sort(ids)| > 0 && Min(ids) == Sort(ids)[0]
  {
    SortSameMembers(ids);
    var s := Sort(ids);
    assert Min(ids) in s;
    assert s[0] in ids;
  }

  lemma SortKeepsDistinct(ids: seq<int>)
    requires Distinct(ids)
    ensures Distinct(Sort(ids))
  {
    var s := Sort(ids);
    forall i, j | 0 <= i < j < |s|
      ensures s[i] != s[j]
    {
      TwoCopies(s, i, j);
      DistinctCountsOnce(ids, s[i]);
    }
  }

  /** Equal values at two positions are two occurrences. */
  lemma TwoCopies(s: seq<int>, i: nat, j: nat)
    requires 0 <= i < j < |s|
    ensures s[i] == s[j] ==> multiset(s)[s[i]] >= 2
  {
    assert s == s[..j] + s[j..];
    assert s[..j][i] == s[i];
    assert s[j..][0] == s[j];
    assert multiset(s) == multiset(s[..j]) + multiset(s[j..]);
  }

  /** From position `i` of a strictly increasing run starting at s[0], the
      corrected scan answers an id past the run that no later id reaches. */
  lemma {:induction false} FixedScanRun(s: seq<int>, i: nat)
    requires Sorted(s) && Distinct(s) && 1 <= i <= |s|
    requires forall j :: 0 <= j < i ==> s[j] == s[0] + j
    ensures var r := ScanFromFixed(s, i, Some(s[i - 1]));
      r !in s && forall v :: s[0] <= v < r ==> v in s
    decreases |s| - i
  {
    var r := ScanFromFixed(s, i, Some(s[i - 1]));
    if i == |s| || s[i] != s[i - 1] + 1 {
      assert r == s[0] + i;
      forall v | s[0] <= v < r
        ensures v in s
      {
        assert s[v - s[0]] == v;
      }
      forall k | 0 <= k < |s|
        ensures s[k] != r
      {
        if k >= i {
          assert s[i - 1] < s[i] <= s[k];
        }
      }
    } else {
      FixedScanRun(s, i + 1);
    }
  }
}
