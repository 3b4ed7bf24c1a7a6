/** Day 4, passport processing: records of key:value fields separated by
    blank lines, and the check that every required field is present. */
module Passports {
  import opened Common

  type Passport = map<string, string>

  /** An input line after tokenising: blank, or its key:value fields in
      order. */
  datatype Line = Blank | Fields(pairs: seq<(string, string)>)

  /** The keys named by some field of the list. */
  function KeysOf(pairs: seq<(string, string)>): set<string>
  {
    set i | 0 <= i < |pairs| :: pairs[i].0
  }

  /** Insert the fields in order, each replacing an earlier value. */
  function InsertAll(p: Passport, pairs: seq<(string, string)>): (r: Passport)
    ensures r.Keys == p.Keys + KeysOf(pairs)
  {
    if |pairs| == 0 then p
    else
      var last := pairs[|pairs| - 1];
      assert KeysOf(pairs) == KeysOf(pairs[..|pairs| - 1]) + {last.0};
      InsertAll(p, pairs[..|pairs| - 1])[last.0 := last.1]
  }

  /** The last field naming a key decides its value; keys no field names
      keep theirs. */
  lemma {:induction false} LastFieldWins(p: Passport, pairs: seq<(string, string)>, i: nat)
    requires i < |pairs|
    requires forall j :: i < j < |pairs| ==> pairs[j].0 != pairs[i].0
    ensures InsertAll(p, pairs)[pairs[i].0] == pairs[i].1
    decreases |pairs|
  {
    if i < |pairs| - 1 {
      LastFieldWins(p, pairs[..|pairs| - 1], i);
    }
  }

  lemma {:induction false} UnnamedKeyKept(p: Passport, pairs: seq<(string, string)>, k: string)
    requires k in p && k !in KeysOf(pairs)
    ensures InsertAll(p, pairs)[k] == p[k]
    decreases |pairs|
  {
    if |pairs| > 0 {
      assert pairs[|pairs| - 1].0 in KeysOf(pairs);
      var init := pairs[..|pairs| - 1];
      assert KeysOf(init) <= KeysOf(pairs) by {
        forall j | 0 <= j < |init|
          ensures init[j].0 in KeysOf(pairs)
        {
          assert init[j] == pairs[j];
        }
      }
      UnnamedKeyKept(p, init, k);
    }
  }

  /** The records of the input, each a list of field lists: every blank
      line closes one, possibly empty, and the last needs no blank. */
  function Records(lines: seq<Line>): (rs: seq<seq<seq<(string, string)>>>)
    ensures |rs| > 0
  {
    if |lines| == 0 then [[]]
    else
      var rs := Records(lines[..|lines| - 1]);
      match lines[|lines| - 1]
      case Blank => rs + [[]]
      case Fields(pairs) => rs[..|rs| - 1] + [rs[|rs| - 1] + [pairs]]
  }

  /** A record's fields merged into one passport. */
  function Merge(record: seq<seq<(string, string)>>): Passport
  {
    if |record| == 0 then map[]
    else InsertAll(Merge(record[..|record| - 1]), record[|record| - 1])
  }

  /** The passports of the input: one per record, except a last record
      without fields. */
  function Passports(lines: seq<Line>): seq<Passport>
  {
    var ps := MergeAll(Records(lines));
    if ps[|ps| - 1] == map[] then ps[..|ps| - 1] else ps
  }

  function MergeAll(rs: seq<seq<seq<(string, string)>>>): (ps: seq<Passport>)
    ensures |ps| == |rs|
  {
    seq(|rs|, i requires 0 <= i < |rs| => Merge(rs[i]))
  }

  function BlankCount(lines: seq<Line>): nat
  {
    CountIf(lines, (l: Line) => l.Blank?)
  }

  /** `read_passports` after tokenising: a blank line pushes the current
      passport, even an empty one, and clears it; other lines insert their
      fields; a non-empty passport left at the end is pushed too. */
  method ReadPassports(lines: seq<Line>) returns (passports: seq<Passport>)
    ensures passports == Passports(lines)
    ensures BlankCount(lines) <= |passports| <= BlankCount(lines) + 1
  {
    passports := [];
    var current: Passport := map[];
    ghost var record: seq<seq<(string, string)>> := [];
    ghost var closed: seq<seq<seq<(string, string)>>> := [];
    var i := 0;
    while i < |lines|
      invariant 0 <= i <= |lines|
      invariant Records(lines[..i]) == closed + [record]
      invariant current == Merge(record)
      invariant passports == MergeAll(closed)
      invariant |closed| == BlankCount(lines[..i])
    {
      RecordsStep(lines, i, closed, record);
      match lines[i] {
        case Blank =>
          passports := passports + [current];
          closed := closed + [record];
          record := [];
          current := map[];
        case Fields(pairs) =>
          current := InsertAll(current, pairs);
          MergeSnoc(record, pairs);
          record := record + [pairs];
      }
      i := i + 1;
    }
    assert lines[..i] == lines;
    if current != map[] {
      passports := passports + [current];
    }
    ReadFinish(lines, closed, record);
  }

  /** One more line either closes the current record or joins it; a blank
      line is counted. */
  lemma RecordsStep(lines: seq<Line>, i: nat, closed: seq<seq<seq<(string, string)>>>,
                    record: seq<seq<(string, string)>>)
    requires i < |lines| && Records(lines[..i]) == closed + [record]
    ensures lines[i].Blank? ==> Records(lines[..i + 1]) == (closed + [record]) + [[]]
    ensures lines[i].Fields? ==> Records(lines[..i + 1]) == closed + [record + [lines[i].pairs]]
    ensures MergeAll(closed + [record]) == MergeAll(closed) + [Merge(record)]
    ensures BlankCount(lines[..i + 1]) == BlankCount(lines[..i]) + (if lines[i].Blank? then 1 else 0)
  {
    assert lines[..i + 1][..i] == lines[..i];
    assert (closed + [record])[..|closed|] == closed;
  }

  lemma MergeSnoc(record: seq<seq<(string, string)>>, pairs: seq<(string, string)>)
    ensures Merge(record + [pairs]) == InsertAll(Merge(record), pairs)
  {
    assert (record + [pairs])[..|record|] == record;
  }

  /** After the last line: the open record becomes a passport unless it is
      empty. */
  lemma ReadFinish(lines: seq<Line>, closed: seq<seq<seq<(string, string)>>>,
                   record: seq<seq<(string, string)>>)
    requires Records(lines) == closed + [record]
    ensures Passports(lines) ==
              if Merge(record) != map[] then MergeAll(closed) + [Merge(record)] else MergeAll(closed)
  {
    var ps := MergeAll(closed + [record]);
    assert ps == MergeAll(closed) + [Merge(record)];
    assert ps[..|closed|] == MergeAll(closed);
  }

  /** An input ending in a blank line has exactly one passport per blank,
      empty records included. */
  lemma EndingInBlank(lines: seq<Line>)
    requires |lines| > 0 && lines[|lines| - 1].Blank?
    ensures |Passports(lines)| == BlankCount(lines)
  {
    var rs := Records(lines);
    assert rs[|rs| - 1] == [];
    assert Merge(rs[|rs| - 1]) == map[];
    BlanksCloseRecords(lines);
  }

  /** The records are one more than the blank lines. */
  lemma {:induction false} BlanksCloseRecords(lines: seq<Line>)
    ensures |Records(lines)| == BlankCount(lines) + 1
    decreases |lines|
  {
    if |lines| > 0 {
      BlanksCloseRecords(lines[..|lines| - 1]);
    }
  }

  /** Two blank lines give two empty passports. */
  lemma TwoBlanks()
    ensures Passports([Blank, Blank]) == [map[], map[]]
  {
    var lines := [Blank, Blank];
    assert lines[..1] == [Blank] && lines[..1][..0] == [];
    assert Records(lines) == [[], [], []];
  }

  /** The fields every passport needs; `cid` is not among them. */
  const Required: set<string> := {"byr", "iyr", "eyr", "hgt", "hcl", "ecl", "pid"}

  /** `is_valid_passport`: look each required key up in turn. */
  method IsValidPassport(passport: Passport, required: set<string>) returns (valid: bool)
    ensures valid <==> required <= passport.Keys
  {
    var todo := required;
    while todo != {}
      invariant todo <= required
      invariant required - todo <= passport.Keys
      decreases |todo|
    {
      var key :| key in todo;
      if key !in passport {
        return false;
      }
      todo := todo - {key};
    }
    return true;
  }

  predicate Valid(passport: Passport)
  {
    Required <= passport.Keys
  }

  /** `count_valid_passports`. */
  method CountValidPassports(passports: seq<Passport>) returns (count: nat)
    ensures count == CountIf(passports, Valid) && count <= |passports|
  {
    count := 0;
    var i := 0;
    while i < |passports|
      invariant 0 <= i <= |passports|
      invariant count == CountIf(passports[..i], Valid)
    {
      assert passports[..i + 1][..i] == passports[..i];
      var valid := IsValidPassport(passports[i], Required);
      if valid {
        count := count + 1;
      }
      i := i + 1;
    }
    assert passports[..i] == passports;
  }

  /** Extra fields never make a passport invalid, and `cid` is optional:
      dropping it keeps a valid passport valid. */
  lemma ExtraFieldsIrrelevant(p: Passport, q: Passport)
    requires Valid(p) && p.Keys <= q.Keys
    ensures Valid(q)
    ensures Valid(p - {"cid"})
  {
    assert "cid" !in Required;
  }
}
