/** Day 6, customs declarations: lines of answered questions, groups split by
    blank lines, and per group the questions anyone answered and the ones
    answered as often as the group has members. */
module Customs {
  import opened Common

  /** The groups of the input: runs of non-blank lines between blank lines.
      Every blank line closes a group, possibly an empty one, and the last
      group needs no closing blank. */
  function Groups(lines: seq<string>): (gs: seq<seq<string>>)
    ensures |gs| > 0
    decreases |lines|
  {
    if |lines| == 0 then [[]]
    else
      var gs := Groups(lines[..|lines| - 1]);
      var last := lines[|lines| - 1];
      if last == "" then gs + [[]]
      else gs[..|gs| - 1] + [gs[|gs| - 1] + [last]]
  }

  /** The questions appearing on some line of the group. */
  function Answered(g: seq<string>): set<char>
  {
    set i, j | 0 <= i < |g| && 0 <= j < |g[i]| :: g[i][j]
  }

  /** How often the question appears over all lines of the group. */
  function Tally(g: seq<string>, q: char): nat
  {
    if |g| == 0 then 0 else Tally(g[..|g| - 1], q) + multiset(g[|g| - 1])[q]
  }

  /** The questions whose tally equals the number of lines. */
  function Unanimous(g: seq<string>): set<char>
  {
    set q | q in Answered(g) && Tally(g, q) == |g|
  }

  function SumAnswered(gs: seq<seq<string>>): nat
  {
    if |gs| == 0 then 0 else SumAnswered(gs[..|gs| - 1]) + |Answered(gs[|gs| - 1])|
  }

  function SumUnanimous(gs: seq<seq<string>>): nat
  {
    if |gs| == 0 then 0 else SumUnanimous(gs[..|gs| - 1]) + |Unanimous(gs[|gs| - 1])|
  }

  /** The running tally map agrees with the group read so far. */
  predicate Tallies(counts: map<char, nat>, g: seq<string>)
  {
    counts.Keys == Answered(g) && forall q :: q in counts ==> counts[q] == Tally(g, q)
  }

  /** Reading one more character into the last line of the group adds it to
      the answered questions and one to its tally. */
  lemma ExtendLastLine(g: seq<string>, c: char)
    requires |g| > 0
    ensures var g' := g[..|g| - 1] + [g[|g| - 1] + [c]];
      && Answered(g') == Answered(g) + {c}
      && forall q :: Tally(g', q) == Tally(g, q) + (if q == c then 1 else 0)
  {
    var n := |g| - 1;
    var g' := g[..n] + [g[n] + [c]];
    forall q | q in Answered(g')
      ensures q in Answered(g) + {c}
    {
      var i, j :| 0 <= i < |g'| && 0 <= j < |g'[i]| && g'[i][j] == q;
      if i < n || j < |g[n]| {
        assert g[i][j] == q;
      }
    }
    forall q | q in Answered(g) + {c}
      ensures q in Answered(g')
    {
      if q in Answered(g) {
        var i, j :| 0 <= i < |g| && 0 <= j < |g[i]| && g[i][j] == q;
        assert g'[i][j] == q;
      } else {
        assert g'[n][|g[n]|] == q;
      }
    }
    assert g'[..n] == g[..n];
  }

  /** Starting a new line of the group changes nothing read so far. */
  lemma StartLine(g: seq<string>)
    ensures Answered(g + [""]) == Answered(g)
    ensures forall q :: Tally(g + [""], q) == Tally(g, q)
  {
    assert (g + [""])[..|g|] == g;
    forall q | q in Answered(g + [""])
      ensures q in Answered(g)
    {
      var i, j :| 0 <= i < |g + [""]| && 0 <= j < |(g + [""])[i]| && (g + [""])[i][j] == q;
      assert g[i][j] == q;
    }
    forall q | q in Answered(g)
      ensures q in Answered(g + [""])
    {
      var i, j :| 0 <= i < |g| && 0 <= j < |g[i]| && g[i][j] == q;
      assert (g + [""])[i][j] == q;
    }
  }

  /** The inner loop of `main`: count each character of the line into the
      group's map. */
  method CountLine(counts: map<char, nat>, ghost g: seq<string>, line: string)
    returns (counts': map<char, nat>)
    requires Tallies(counts, g)
    ensures Tallies(counts', g + [line])
  {
    counts' := counts;
    StartLine(g);
    assert line[..0] == "";
    var j := 0;
    while j < |line|
      invariant 0 <= j <= |line|
      invariant Tallies(counts', g + [line[..j]])
    {
      var c := line[j];
      CountChar(counts', g, line, j);
      var count := if c in counts' then counts'[c] else 0;
      counts' := counts'[c := count + 1];
      j := j + 1;
    }
    assert line[..j] == line;
  }

  /** Reading character `j` of the line extends the tallied prefix by it. */
  lemma CountChar(counts: map<char, nat>, g: seq<string>, line: string, j: nat)
    requires j < |line| && Tallies(counts, g + [line[..j]])
    ensures Tallies(counts[line[j] := (if line[j] in counts then counts[line[j]] else 0) + 1],
                    g + [line[..j + 1]])
  {
    var cur := g + [line[..j]];
    CountStep(counts, cur, line[j]);
    assert line[..j + 1] == line[..j] + [line[j]];
    assert cur[..|cur| - 1] == g;
  }

  /** One character read into the map keeps it in step with the group. */
  lemma CountStep(counts: map<char, nat>, g: seq<string>, c: char)
    requires |g| > 0 && Tallies(counts, g)
    ensures Tallies(counts[c := (if c in counts then counts[c] else 0) + 1],
                    g[..|g| - 1] + [g[|g| - 1] + [c]])
  {
    ExtendLastLine(g, c);
    var g' := g[..|g| - 1] + [g[|g| - 1] + [c]];
    var counts' := counts[c := (if c in counts then counts[c] else 0) + 1];
    assert counts'.Keys == counts.Keys + {c};
    forall q | q in counts'
      ensures counts'[q] == Tally(g', q)
    {
      if q == c {
        if c !in counts {
          assert c !in Answered(g);
          TallyAbsent(g, c);
        }
      }
    }
  }

  /** A question nobody answered has tally zero. */
  lemma {:induction false} TallyAbsent(g: seq<string>, q: char)
    requires q !in Answered(g)
    ensures Tally(g, q) == 0
    decreases |g|
  {
    if |g| > 0 {
      var init, last := g[..|g| - 1], g[|g| - 1];
      assert Answered(init) <= Answered(g) by {
        forall i, j | 0 <= i < |init| && 0 <= j < |init[i]|
          ensures init[i][j] in Answered(g)
        {
          assert g[i][j] == init[i][j];
        }
      }
      TallyAbsent(init, q);
      assert forall j :: 0 <= j < |last| ==> last[j] == g[|g| - 1][j];
      assert q !in multiset(last);
    }
  }

  /** The keys whose count equals `n`. */
  function CountedTimes(counts: map<char, nat>, n: nat): set<char>
  {
    set q | q in counts && counts[q] == n
  }

  /** What a closed group adds to the two counters: every key of the map,
      and every key whose count equals the group size. */
  lemma CloseGroup(counts: map<char, nat>, closed: seq<seq<string>>, g: seq<string>)
    requires Tallies(counts, g)
    ensures SumAnswered(closed + [g]) == SumAnswered(closed) + |counts.Keys|
    ensures SumUnanimous(closed + [g]) == SumUnanimous(closed) + |CountedTimes(counts, |g|)|
  {
    assert CountedTimes(counts, |g|) == Unanimous(g);
    assert (closed + [g])[..|closed|] == closed;
  }

  /** One more line either closes the current group or joins it. */
  lemma GroupsStep(lines: seq<string>, i: nat, closed: seq<seq<string>>, g: seq<string>)
    requires i < |lines| && Groups(lines[..i]) == closed + [g]
    ensures lines[i] == "" ==> Groups(lines[..i + 1]) == closed + [g] + [[]]
    ensures lines[i] != "" ==> Groups(lines[..i + 1]) == closed + [g + [lines[i]]]
  {
    assert lines[..i + 1][..i] == lines[..i];
    assert (closed + [g])[..|closed|] == closed;
  }

  /** The group loop of `main` and the count after it. `pt1` is the sum over
      the groups of the questions anyone answered, `pt2` the sum of the
      questions answered once per member. */
  method CountAnswers(lines: seq<string>) returns (pt1: nat, pt2: nat)
    ensures pt1 == SumAnswered(Groups(lines))
    ensures pt2 == SumUnanimous(Groups(lines))
  {
    pt1, pt2 := 0, 0;
    var counts: map<char, nat> := map[];
    var size := 0;
    ghost var group: seq<string> := [];
    ghost var closed: seq<seq<string>> := [];
    var i := 0;
    while i < |lines|
      invariant i <= |lines| && CountedUpTo(lines, i, closed, group, size, counts, pt1, pt2)
      decreases |lines| - i
    {
      closed, group, size, counts, pt1, pt2 := TakeLine(lines, i, closed, group, size, counts, pt1, pt2);
      i := i + 1;
    }
    assert lines[..i] == lines;
    CloseGroup(counts, closed, group);
    pt1 := pt1 + |counts.Keys|;
    pt2 := pt2 + |CountedTimes(counts, size)|;
  }

  /** After the first `i` lines: `closed` are the groups already ended and
      counted, and `counts` tallies the `size` lines of the open `group`. */
  ghost predicate CountedUpTo(lines: seq<string>, i: nat, closed: seq<seq<string>>, group: seq<string>,
                              size: nat, counts: map<char, nat>, pt1: nat, pt2: nat)
    requires i <= |lines|
  {
    && Groups(lines[..i]) == closed + [group]
    && size == |group| && Tallies(counts, group)
    && pt1 == SumAnswered(closed) && pt2 == SumUnanimous(closed)
  }

  /** One pass of the loop: a blank line adds the open group to both
      counters and starts a new one; any other line joins the open group. */
  method TakeLine(lines: seq<string>, i: nat, ghost closed: seq<seq<string>>, ghost group: seq<string>,
                  size: nat, counts: map<char, nat>, pt1: nat, pt2: nat)
    returns (ghost closed': seq<seq<string>>, ghost group': seq<string>,
             size': nat, counts': map<char, nat>, pt1': nat, pt2': nat)
    requires i < |lines| && CountedUpTo(lines, i, closed, group, size, counts, pt1, pt2)
    ensures CountedUpTo(lines, i + 1, closed', group', size', counts', pt1', pt2')
    ensures lines[i] == "" ==> size' == 0 && pt1' == pt1 + |counts.Keys| && pt2' == pt2 + |CountedTimes(counts, size)|
    ensures lines[i] != "" ==> size' == size + 1 && pt1' == pt1 && pt2' == pt2
  {
    var line := lines[i];
    GroupsStep(lines, i, closed, group);
    if line == "" {
      CloseGroup(counts, closed, group);
      pt1' := pt1 + |counts.Keys|;
      pt2' := pt2 + |CountedTimes(counts, size)|;
      closed' := closed + [group];
      group' := [];
      size' := 0;
      counts' := map[];
    } else {
      size' := size + 1;
      counts' := CountLine(counts, group, line);
      group' := group + [line];
      closed' := closed;
      pt1', pt2' := pt1, pt2;
    }
  }

  /** A unanimous question was answered, so part 2 never exceeds part 1. */
  lemma {:induction false} UnanimousAtMostAnswered(gs: seq<seq<string>>)
    ensures SumUnanimous(gs) <= SumAnswered(gs)
    decreases |gs|
  {
    if |gs| > 0 {
      UnanimousAtMostAnswered(gs[..|gs| - 1]);
      var g := gs[|gs| - 1];
      assert Unanimous(g) <= Answered(g);
      SubsetSize(Unanimous(g), Answered(g));
    }
  }

  /** No line repeats a question. */
  predicate NoRepeats(g: seq<string>)
  {
    forall i, j, k :: 0 <= i < |g| && 0 <= j < k < |g[i]| ==> g[i][j] != g[i][k]
  }

  /** When no line repeats a question, the tally reaches the group size
      exactly for the questions every member answered. */
  lemma {:induction false} UnanimousMeansEveryone(g: seq<string>, q: char)
    requires NoRepeats(g)
    ensures Tally(g, q) == |g| <==> forall i :: 0 <= i < |g| ==> q in g[i]
    decreases |g|
  {
    if |g| > 0 {
      var init, last := g[..|g| - 1], g[|g| - 1];
      assert NoRepeats(init);
      UnanimousMeansEveryone(init, q);
      AtMostOnce(last, q);
      TallyAtMost(init, q);
      assert q in last <==> multiset(last)[q] == 1;
      if forall i :: 0 <= i < |g| ==> q in g[i] {
        assert forall i :: 0 <= i < |init| ==> q in init[i] by {
          forall i | 0 <= i < |init|
            ensures q in init[i]
          {
            assert init[i] == g[i];
          }
        }
      }
      if Tally(g, q) == |g| {
        forall i | 0 <= i < |g|
          ensures q in g[i]
        {
          if i < |init| {
            assert init[i] == g[i];
          }
        }
      }
    }
  }

  /** A line without repeats holds a question at most once. */
  lemma {:induction false} AtMostOnce(line: string, q: char)
    requires forall j, k :: 0 <= j < k < |line| ==> line[j] != line[k]
    ensures multiset(line)[q] <= 1
    decreases |line|
  {
    if |line| > 0 {
      var rest := line[1..];
      assert line == [line[0]] + rest;
      AtMostOnce(rest, q);
      if line[0] == q {
        assert q !in rest by {
          forall k | 0 <= k < |rest|
            ensures rest[k] != q
          {
            assert line[k + 1] != line[0];
          }
        }
      }
    }
  }

  /** Without repeats, the tally counts lines holding the question, so it
      is at most the number of lines. */
  lemma {:induction false} TallyAtMost(g: seq<string>, q: char)
    requires NoRepeats(g)
    ensures Tally(g, q) <= |g|
    decreases |g|
  {
    if |g| > 0 {
      assert NoRepeats(g[..|g| - 1]);
      TallyAtMost(g[..|g| - 1], q);
      AtMostOnce(g[|g| - 1], q);
    }
  }
}
