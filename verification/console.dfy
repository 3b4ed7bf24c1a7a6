/** Day 8, the handheld console: a three-instruction machine, execution until
    the program counter leaves the program or revisits an instruction, and the
    search for the one `jmp`/`nop` swap that makes the program terminate. */
module Console {
  import opened Common

  datatype Op = Acc(arg: int) | Jmp(arg: int) | Nop(arg: int)

  /** The machine: the program, the program counter, the accumulator and the
      set of instruction indices already executed. */
  datatype Program = Program(prg: seq<Op>, pc: nat, acc: int, visited: set<nat>)

  /** Program counter and accumulator, the part of the state an instruction
      changes. */
  datatype Cpu = Cpu(pc: nat, acc: int)

  /** How `execute` ended: `Ok` when the counter left the program, `Err`
      when it came back to an instruction already executed; both carry the
      accumulator at that moment. */
  datatype Outcome = Ok(value: int) | Err(value: int)

  const UsizeModulus: int := 0x1_0000_0000_0000_0000

  /** `t as usize` for a signed jump target: two's complement
      reinterpretation, so a target just below zero becomes a huge index. */
  function AsUsize(t: int): (u: nat)
    ensures 0 <= t < UsizeModulus ==> u == t
    ensures -UsizeModulus / 2 <= t < 0 ==> u >= UsizeModulus / 2
  {
    t % UsizeModulus
  }

  /** The mnemonic table of `from_strings`; any other mnemonic panics. */
  function ParseOp(mnemonic: string, val: int): (r: Option<Op>)
    ensures r.Some? <==> mnemonic in {"acc", "jmp", "nop"}
    ensures r.Some? ==> r.value.arg == val
    ensures r == Some(Acc(val)) <==> mnemonic == "acc"
    ensures r == Some(Jmp(val)) <==> mnemonic == "jmp"
    ensures r == Some(Nop(val)) <==> mnemonic == "nop"
  {
    if mnemonic == "acc" then Some(Acc(val))
    else if mnemonic == "jmp" then Some(Jmp(val))
    else if mnemonic == "nop" then Some(Nop(val))
    else None
  }

  function Mnemonic(op: Op): string
  {
    match op
    case Acc(_) => "acc"
    case Jmp(_) => "jmp"
    case Nop(_) => "nop"
  }

  /** The machine as loaded: counter and accumulator at zero, nothing visited. */
  function Initial(prg: seq<Op>): Program
  {
    Program(prg, 0, 0, {})
  }

  function ParseOps(lines: seq<(string, int)>): (r: Option<seq<Op>>)
    ensures r.Some? <==> forall i :: 0 <= i < |lines| ==> ParseOp(lines[i].0, lines[i].1).Some?
    ensures r.Some? ==> (|r.value| == |lines| &&
              forall i :: 0 <= i < |lines| ==> Some(r.value[i]) == ParseOp(lines[i].0, lines[i].1))
  {
    if |lines| == 0 then Some([])
    else
      match (ParseOps(lines[..|lines| - 1]), ParseOp(lines[|lines| - 1].0, lines[|lines| - 1].1))
      case (Some(ops), Some(op)) => Some(ops + [op])
      case _ => None
  }

  /** `from_strings` over lines already split into mnemonic and argument:
      None stands for the panic on an unknown mnemonic. */
  function FromStrings(lines: seq<(string, int)>): (r: Option<Program>)
    ensures r.Some? <==> forall i :: 0 <= i < |lines| ==> lines[i].0 in {"acc", "jmp", "nop"}
    ensures r.Some? ==> r.value.pc == 0 && r.value.acc == 0 && r.value.visited == {}
    ensures r.Some? ==> (|r.value.prg| == |lines| &&
              forall i :: 0 <= i < |lines| ==>
                Mnemonic(r.value.prg[i]) == lines[i].0 && r.value.prg[i].arg == lines[i].1)
  {
    match ParseOps(lines)
    case None => None
    case Some(ops) => Some(Initial(ops))
  }

  /** Printing a program and reading it back gives the loaded machine. */
  lemma FromStringsRoundTrip(prg: seq<Op>)
    ensures FromStrings(seq(|prg|, i requires 0 <= i < |prg| => (Mnemonic(prg[i]), prg[i].arg)))
            == Some(Initial(prg))
  {
    var lines := seq(|prg|, i requires 0 <= i < |prg| => (Mnemonic(prg[i]), prg[i].arg));
    var r := ParseOps(lines);
    assert r.Some?;
    assert r.value == prg;
  }

  /** `reset`: back to the state `from_strings` produces, program kept. */
  function Reset(p: Program): (r: Program)
    ensures r == Initial(p.prg)
  {
    p.(pc := 0, acc := 0, visited := {})
  }

  /** One instruction at index `pc`. */
  function Exec(op: Op, pc: nat, acc: int): (c: Cpu)
    ensures op.Acc? ==> c == Cpu(pc + 1, acc + op.arg)
    ensures op.Nop? ==> c == Cpu(pc + 1, acc)
    ensures op.Jmp? ==> c.acc == acc && (pc + op.arg >= 0 ==> c.pc == pc + op.arg)
    ensures op.Jmp? && pc < UsizeModulus / 2 && -UsizeModulus / 2 <= op.arg < 0 && pc + op.arg < 0 ==>
              c.pc >= UsizeModulus / 2
  {
    match op
    case Acc(v) => Cpu(pc + 1, acc + v)
    case Jmp(v) => Cpu(if pc + v < UsizeModulus then AsUsize(pc + v) else pc + v, acc)
    case Nop(_) => Cpu(pc + 1, acc)
  }

  /** `step`: execute the instruction at the counter; the program and the
      visited set are untouched. */
  function Step(p: Program): (q: Program)
    requires p.pc < |p.prg|
    ensures q.prg == p.prg && q.visited == p.visited
    ensures Cpu(q.pc, q.acc) == Exec(p.prg[p.pc], p.pc, p.acc)
  {
    var c := Exec(p.prg[p.pc], p.pc, p.acc);
    p.(pc := c.pc, acc := c.acc)
  }

  /** The reference semantics: counter and accumulator after `k` plain steps
      from `c`, with no loop detection; a counter outside the program stays. */
  ghost function Run(prg: seq<Op>, c: Cpu, k: nat): Cpu
    decreases k
  {
    if k == 0 || c.pc >= |prg| then c
    else Run(prg, Exec(prg[c.pc], c.pc, c.acc), k - 1)
  }

  function CpuOf(p: Program): Cpu
  {
    Cpu(p.pc, p.acc)
  }

  /** Counter positions of the first `n` plain steps from `p`. */
  ghost function Trail(p: Program, n: nat): set<nat>
  {
    set j | 0 <= j < n :: Run(p.prg, CpuOf(p), j).pc
  }

  /** Step `j` from `p` executes an instruction inside the program, at an
      index neither visited before the run nor reached earlier in it. */
  ghost predicate Fresh(p: Program, j: nat)
  {
    && Run(p.prg, CpuOf(p), j).pc < |p.prg|
    && Run(p.prg, CpuOf(p), j).pc !in p.visited
    && forall i :: 0 <= i < j ==> Run(p.prg, CpuOf(p), i).pc != Run(p.prg, CpuOf(p), j).pc
  }

  /** Every visited index lies inside the program. */
  predicate VisitedInRange(p: Program)
  {
    forall v :: v in p.visited ==> v < |p.prg|
  }

  /** The result of `execute`: the outcome, the machine it leaves behind,
      and the number of instructions it executed. */
  datatype Halt = Halt(outcome: Outcome, final: Program, steps: nat)

  /** `execute`: run until the counter leaves the program (Ok) or reaches an
      instruction already visited (Err), marking each executed index. It
      stops on one of the two conditions, reports the accumulator it stopped
      with, and executes no more instructions than there are unvisited ones. */
  function Execute(p: Program): (h: Halt)
    requires VisitedInRange(p)
    ensures h.final.prg == p.prg
    ensures h.final.pc >= |p.prg| || h.final.pc in h.final.visited
    ensures h.outcome == (if h.final.pc >= |p.prg| then Ok(h.final.acc) else Err(h.final.acc))
    ensures |p.visited| + h.steps <= |p.prg|
    decreases |p.prg| - |p.visited|
  {
    BoundedSetSize(p.visited, |p.prg|);
    if p.pc >= |p.prg| then Halt(Ok(p.acc), p, 0)
    else if p.pc in p.visited then Halt(Err(p.acc), p, 0)
    else
      var p' := Step(p.(visited := p.visited + {p.pc}));
      BoundedSetSize(p'.visited, |p.prg|);
      var h := Execute(p');
      Halt(h.outcome, h.final, h.steps + 1)
  }

  /** `execute` against the plain trace: the first `steps` steps are all
      fresh, the run stops at step `steps` (which is not fresh), and the
      visited set gains exactly the executed indices. */
  lemma {:induction false} ExecuteFollowsTrace(p: Program)
    requires VisitedInRange(p)
    ensures var h := Execute(p);
      && CpuOf(h.final) == Run(p.prg, CpuOf(p), h.steps)
      && h.final.visited == p.visited + Trail(p, h.steps)
      && (forall j :: 0 <= j < h.steps ==> Fresh(p, j))
      && !Fresh(p, h.steps)
    decreases |p.prg| - |p.visited|
  {
    BoundedSetSize(p.visited, |p.prg|);
    var h := Execute(p);
    if p.pc >= |p.prg| || p.pc in p.visited {
      TraceAtStop(p);
    } else {
      var p' := Step(p.(visited := p.visited + {p.pc}));
      BoundedSetSize(p'.visited, |p.prg|);
      ExecuteFollowsTrace(p');
      TraceStep(p, p');
    }
  }

  /** The facts of `ExecuteFollowsTrace` about one machine. */
  ghost predicate FollowsTrace(p: Program)
    requires VisitedInRange(p)
  {
    var h := Execute(p);
    && CpuOf(h.final) == Run(p.prg, CpuOf(p), h.steps)
    && h.final.visited == p.visited + Trail(p, h.steps)
    && (forall j :: 0 <= j < h.steps ==> Fresh(p, j))
    && !Fresh(p, h.steps)
  }

  /** A machine that executes one step follows its trace when the machine
      after the step follows its own. */
  lemma TraceStep(p: Program, p': Program)
    requires VisitedInRange(p) && p.pc < |p.prg| && p.pc !in p.visited
    requires p' == Step(p.(visited := p.visited + {p.pc})) && VisitedInRange(p')
    requires FollowsTrace(p')
    ensures FollowsTrace(p)
  {
    var h, h' := Execute(p), Execute(p');
    assert h.steps == h'.steps + 1 && h.final == h'.final;
    ExecuteShift(p, p', h'.steps);
  }

  /** A machine that `execute` stops at at once has run no steps, and its
      first step is not fresh. */
  lemma TraceAtStop(p: Program)
    requires p.pc >= |p.prg| || p.pc in p.visited
    ensures Run(p.prg, CpuOf(p), 0) == CpuOf(p)
    ensures p.visited + Trail(p, 0) == p.visited
    ensures !Fresh(p, 0)
  {
    assert Trail(p, 0) == {};
  }

  /** What one executed step does to the trace: the run from the stepped
      machine is the run from `p` shifted by one. */
  lemma ExecuteShift(p: Program, p': Program, n: nat)
    requires p.pc < |p.prg| && p.pc !in p.visited
    requires p' == Step(p.(visited := p.visited + {p.pc}))
    requires forall j :: 0 <= j < n ==> Fresh(p', j)
    ensures forall j :: 0 <= j < n + 1 ==> Fresh(p, j)
    ensures Run(p.prg, CpuOf(p), n + 1) == Run(p'.prg, CpuOf(p'), n)
    ensures p'.visited + Trail(p', n) == p.visited + Trail(p, n + 1)
  {
    forall j | 0 <= j
      ensures Run(p.prg, CpuOf(p), j + 1) == Run(p'.prg, CpuOf(p'), j)
    {
    }
    assert Run(p.prg, CpuOf(p), 0).pc == p.pc;
    forall j | 0 <= j < n + 1
      ensures Fresh(p, j)
    {
      if j > 0 {
        assert Fresh(p', j - 1);
        forall i | 0 <= i < j
          ensures Run(p.prg, CpuOf(p), i).pc != Run(p.prg, CpuOf(p), j).pc
        {
          if i > 0 {
            assert Run(p.prg, CpuOf(p), i) == Run(p'.prg, CpuOf(p'), i - 1);
          }
        }
      }
    }
    forall v | v in p.visited + Trail(p, n + 1)
      ensures v in p'.visited + Trail(p', n)
    {
      if v !in p.visited && v != p.pc {
        var j :| 0 <= j < n + 1 && Run(p.prg, CpuOf(p), j).pc == v;
        assert j > 0;
        assert Run(p'.prg, CpuOf(p'), j - 1).pc == v;
      }
    }
    forall v | v in p'.visited + Trail(p', n)
      ensures v in p.visited + Trail(p, n + 1)
    {
      if v == p.pc {
        assert Run(p.prg, CpuOf(p), 0).pc == v;
      } else if v !in p.visited {
        var j :| 0 <= j < n && Run(p'.prg, CpuOf(p'), j).pc == v;
        assert Run(p.prg, CpuOf(p), j + 1).pc == v;
      }
    }
  }

  /** A set of indices below `n` has at most `n` elements. */
  lemma {:induction false} BoundedSetSize(s: set<nat>, n: nat)
    requires forall v :: v in s ==> v < n
    ensures |s| <= n
    decreases n
  {
    if n == 0 {
      assert s == {};
    } else {
      BoundedSetSize(s - {n - 1}, n - 1);
    }
  }

  /** A jump before index 0 wraps, as an unsigned index, past the end of any
      program shorter than 2^63 instructions, so `execute` reports it as
      termination with the accumulator unchanged. */
  lemma NegativeJumpTerminates(p: Program)
    requires VisitedInRange(p)
    requires p.pc < |p.prg| <= UsizeModulus / 2 && p.pc !in p.visited
    requires p.prg[p.pc].Jmp? && -UsizeModulus / 2 <= p.prg[p.pc].arg && p.pc + p.prg[p.pc].arg < 0
    ensures Execute(p).outcome == Ok(p.acc)
    ensures Execute(p).steps == 1
  {
    var p' := Step(p.(visited := p.visited + {p.pc}));
    assert p'.pc >= |p.prg|;
    BoundedSetSize(p'.visited, |p.prg|);
  }

  /** Resetting the machine a run leaves behind gives the loaded machine back. */
  lemma ResetAfterExecute(lines: seq<(string, int)>)
    requires FromStrings(lines).Some?
    ensures Reset(Execute(FromStrings(lines).value).final) == FromStrings(lines).value
  {
  }

  /** The machine as `fix_loop` saves it before executing step `j`. */
  ghost function Snapshot(p: Program, j: nat): (s: Program)
    ensures s.prg == p.prg
  {
    var c := Run(p.prg, CpuOf(p), j);
    Program(p.prg, c.pc, c.acc, p.visited + Trail(p, j))
  }

  /** The instruction at the counter with `jmp` and `nop` swapped; None for
      `acc`, which the search skips. */
  function Flip(s: Program): (r: Option<Program>)
    requires s.pc < |s.prg|
    ensures r.Some? <==> !s.prg[s.pc].Acc?
    ensures r.Some? ==> r.value.pc == s.pc && r.value.acc == s.acc && r.value.visited == s.visited
    ensures r.Some? ==> (|r.value.prg| == |s.prg| &&
              forall i :: 0 <= i < |s.prg| && i != s.pc ==> r.value.prg[i] == s.prg[i])
    ensures r.Some? ==> (r.value.prg[s.pc].arg == s.prg[s.pc].arg &&
              (r.value.prg[s.pc].Jmp? <==> s.prg[s.pc].Nop?))
  {
    match s.prg[s.pc]
    case Acc(_) => None
    case Jmp(v) => Some(s.(prg := s.prg[s.pc := Nop(v)]))
    case Nop(v) => Some(s.(prg := s.prg[s.pc := Jmp(v)]))
  }

  /** Swapping the instruction of saved state `s` makes the rest of the run
      leave the program. */
  ghost predicate Fixes(s: Program)
  {
    && s.pc < |s.prg|
    && VisitedInRange(s)
    && Flip(s).Some?
    && Execute(Flip(s).value).outcome.Ok?
  }

  /** `states` holds the snapshots of the first `|states|` steps, all fresh. */
  ghost predicate Recorded(p: Program, states: seq<Program>)
  {
    forall j :: 0 <= j < |states| ==>
      Fresh(p, j) && states[j] == Snapshot(p, j) && VisitedInRange(states[j])
  }

  /** Phase one of `fix_loop`: save the machine before every executed step
      until the counter comes back to a visited index (`looped`). A counter
      that leaves the program first makes `step` index past the end, which
      panics (`looped` false). */
  method RecordStates(p: Program) returns (states: seq<Program>, looped: bool)
    requires VisitedInRange(p)
    ensures Recorded(p, states)
    ensures looped <==> Run(p.prg, CpuOf(p), |states|).pc < |p.prg|
    ensures looped ==> Run(p.prg, CpuOf(p), |states|).pc in p.visited + Trail(p, |states|)
  {
    states := [];
    var m := p;
    assert Trail(p, 0) == {};
    while m.pc !in m.visited
      invariant m == Snapshot(p, |states|)
      invariant Recorded(p, states)
      invariant VisitedInRange(m)
      decreases |p.prg| - |states|
    {
      if m.pc >= |m.prg| {
        assert m.pc == Run(p.prg, CpuOf(p), |states|).pc;
        return states, false;
      }
      var m' := Step(m.(visited := m.visited + {m.pc}));
      SnapshotStep(p, states, m');
      states := states + [m];
      m := m';
    }
    assert m.pc == Run(p.prg, CpuOf(p), |states|).pc;
    assert m.visited == p.visited + Trail(p, |states|);
    looped := true;
  }

  /** Phase two of `fix_loop`: pop saved states from the latest, skip `acc`,
      swap `jmp`/`nop`, resume the saved state (visited set included) and
      return the accumulator of the first resumed run that terminates.
      Running out of states panics on the empty pop (None). */
  method TryRepairs(states: seq<Program>) returns (r: Option<int>)
    requires forall j :: 0 <= j < |states| ==> states[j].pc < |states[j].prg| && VisitedInRange(states[j])
    ensures r.Some? ==>
              exists i :: 0 <= i < |states| && Fixes(states[i]) &&
                Execute(Flip(states[i]).value).outcome == Ok(r.value) &&
                forall j :: i < j < |states| ==> !Fixes(states[j])
    ensures r.None? ==> forall j :: 0 <= j < |states| ==> !Fixes(states[j])
  {
    var i := |states|;
    while i > 0
      invariant 0 <= i <= |states|
      invariant forall j :: i <= j < |states| ==> !Fixes(states[j])
    {
      i := i - 1;
      var candidate := states[i];
      var flipped := Flip(candidate);
      if flipped.Some? {
        var h := Execute(flipped.value);
        if h.outcome.Ok? {
          return Some(h.outcome.value);
        }
      }
    }
    return None;
  }

  /** `fix_loop`: the accumulator of the repaired run, found by trying the
      saved states from the latest back, returned with `n`, the number of
      states saved. None stands for either panic. */
  method FixLoop(p: Program) returns (r: Option<int>, n: nat)
    requires VisitedInRange(p)
    ensures forall j :: 0 <= j < n ==> Fresh(p, j)
    ensures Run(p.prg, CpuOf(p), n).pc >= |p.prg| || Run(p.prg, CpuOf(p), n).pc in p.visited + Trail(p, n)
    ensures r.Some? ==>
              Run(p.prg, CpuOf(p), n).pc < |p.prg| &&
              exists i :: 0 <= i < n && Fixes(Snapshot(p, i)) &&
                Execute(Flip(Snapshot(p, i)).value).outcome == Ok(r.value) &&
                forall j :: i < j < n ==> !Fixes(Snapshot(p, j))
    ensures r.None? ==>
              Run(p.prg, CpuOf(p), n).pc >= |p.prg| ||
              forall j :: 0 <= j < n ==> !Fixes(Snapshot(p, j))
  {
    var states, looped := RecordStates(p);
    n := |states|;
    if !looped {
      return None, n;
    }
    r := TryRepairs(states);
  }

  /** Phase one's bookkeeping: saving, marking and stepping the snapshot of
      the next step extends the record by one. */
  lemma SnapshotStep(p: Program, states: seq<Program>, m': Program)
    requires VisitedInRange(p)
    requires Recorded(p, states)
    requires VisitedInRange(Snapshot(p, |states|))
    requires Snapshot(p, |states|).pc < |p.prg| && Snapshot(p, |states|).pc !in Snapshot(p, |states|).visited
    requires m' == Step(Snapshot(p, |states|).(visited := Snapshot(p, |states|).visited + {Snapshot(p, |states|).pc}))
    ensures m' == Snapshot(p, |states| + 1)
    ensures Recorded(p, states + [Snapshot(p, |states|)])
    ensures VisitedInRange(m')
    ensures |p.visited| + |states| + 1 <= |p.prg|
  {
    var n := |states|;
    SnapshotFresh(p, n);
    RecordedSnoc(p, states);
    SnapshotNext(p, n);
    assert forall j :: 0 <= j < n + 1 ==> Fresh(p, j);
    FreshBound(p, n + 1);
  }

  /** A snapshot whose counter is inside the program and not yet visited
      is about to take a fresh step. */
  lemma SnapshotFresh(p: Program, n: nat)
    requires Snapshot(p, n).pc < |p.prg| && Snapshot(p, n).pc !in Snapshot(p, n).visited
    ensures Fresh(p, n)
  {
    var v := Run(p.prg, CpuOf(p), n).pc;
    forall i | 0 <= i < n
      ensures Run(p.prg, CpuOf(p), i).pc != v
    {
      assert Run(p.prg, CpuOf(p), i).pc in Trail(p, n);
    }
  }

  /** Marking and stepping snapshot `n` gives snapshot `n + 1`. */
  lemma SnapshotNext(p: Program, n: nat)
    requires Snapshot(p, n).pc < |p.prg|
    ensures var s := Snapshot(p, n);
      Step(s.(visited := s.visited + {s.pc})) == Snapshot(p, n + 1)
  {
    RunSnoc(p.prg, CpuOf(p), n);
    TrailSnoc(p, n);
  }

  /** After `n` fresh steps the visited set stays inside the program and
      has grown by `n`. */
  lemma FreshBound(p: Program, n: nat)
    requires VisitedInRange(p)
    requires forall j :: 0 <= j < n ==> Fresh(p, j)
    ensures VisitedInRange(Snapshot(p, n))
    ensures |p.visited| + n <= |p.prg|
  {
    FreshCount(p, n);
    TrailInProgram(p, n);
    BoundedSetSize(p.visited + Trail(p, n), |p.prg|);
  }

  /** Fresh steps add one index each to the visited set. */
  lemma FreshCount(p: Program, n: nat)
    requires forall j :: 0 <= j < n ==> Fresh(p, j)
    ensures |p.visited + Trail(p, n)| == |p.visited| + n
  {
    var pcs := seq(n, j requires 0 <= j < n => Run(p.prg, CpuOf(p), j).pc);
    forall j | 0 <= j < n
      ensures pcs[j] !in p.visited && forall i :: 0 <= i < j ==> pcs[i] != pcs[j]
    {
      assert Fresh(p, j);
    }
    forall x | x in Trail(p, n)
      ensures x in Members(pcs)
    {
      var j :| 0 <= j < n && Run(p.prg, CpuOf(p), j).pc == x;
      assert pcs[j] == x;
    }
    forall x | x in Members(pcs)
      ensures x in Trail(p, n)
    {
      var j :| 0 <= j < n && pcs[j] == x;
      assert Run(p.prg, CpuOf(p), j).pc == x;
    }
    assert Trail(p, n) == Members(pcs);
    DistinctCount(p.visited, pcs);
  }

  /** The values of a sequence, as a set. */
  function Members(s: seq<nat>): set<nat>
  {
    set j | 0 <= j < |s| :: s[j]
  }

  /** Distinct values outside `a` grow it by one each. */
  lemma {:induction false} DistinctCount(a: set<nat>, s: seq<nat>)
    requires forall j :: 0 <= j < |s| ==> s[j] !in a && forall i :: 0 <= i < j ==> s[i] != s[j]
    ensures |a + Members(s)| == |a| + |s|
    decreases |s|
  {
    if |s| > 0 {
      var init, v := s[..|s| - 1], s[|s| - 1];
      DistinctCount(a, init);
      MembersSnoc(s);
      assert a + Members(s) == (a + Members(init)) + {v};
    } else {
      assert Members(s) == {};
    }
  }

  /** The members of a sequence of distinct values are those of all but its
      last value, plus the last, which is not among them. */
  lemma MembersSnoc(s: seq<nat>)
    requires |s| > 0 && forall j :: 0 <= j < |s| ==> forall i :: 0 <= i < j ==> s[i] != s[j]
    ensures Members(s) == Members(s[..|s| - 1]) + {s[|s| - 1]}
    ensures s[|s| - 1] !in Members(s[..|s| - 1])
  {
    var init := s[..|s| - 1];
    forall x | x in Members(s)
      ensures x in Members(init) + {s[|s| - 1]}
    {
      var j :| 0 <= j < |s| && s[j] == x;
      if j < |init| {
        assert init[j] == x;
      }
    }
    forall x | x in Members(init)
      ensures x in Members(s) && x != s[|s| - 1]
    {
      var j :| 0 <= j < |init| && init[j] == x;
      assert s[j] == x;
    }
  }

  /** A fresh step executes an instruction inside the program, neither
      visited before nor on the trail so far. */
  lemma FreshIsNew(p: Program, n: nat)
    ensures Fresh(p, n) ==>
              Run(p.prg, CpuOf(p), n).pc < |p.prg| && Run(p.prg, CpuOf(p), n).pc !in p.visited + Trail(p, n)
  {
    if Fresh(p, n) && Run(p.prg, CpuOf(p), n).pc in Trail(p, n) {
      assert false;
    }
  }

  /** Fresh steps execute instructions inside the program. */
  lemma TrailInProgram(p: Program, n: nat)
    requires forall j :: 0 <= j < n ==> Fresh(p, j)
    ensures forall v :: v in Trail(p, n) ==> v < |p.prg|
  {
    forall v | v in Trail(p, n)
      ensures v < |p.prg|
    {
      var j :| 0 <= j < n && Run(p.prg, CpuOf(p), j).pc == v;
      assert Fresh(p, j);
    }
  }

  /** Recording one more fresh step. */
  lemma RecordedSnoc(p: Program, states: seq<Program>)
    requires Recorded(p, states) && Fresh(p, |states|) && VisitedInRange(Snapshot(p, |states|))
    ensures Recorded(p, states + [Snapshot(p, |states|)])
  {
    var s := states + [Snapshot(p, |states|)];
    forall j | 0 <= j < |s|
      ensures Fresh(p, j) && s[j] == Snapshot(p, j) && VisitedInRange(s[j])
    {
      if j < |states| {
        assert s[j] == states[j];
      }
    }
  }

  /** The trail of `n + 1` steps adds the counter of step `n`. */
  lemma TrailSnoc(p: Program, n: nat)
    ensures Trail(p, n + 1) == Trail(p, n) + {Run(p.prg, CpuOf(p), n).pc}
  {
  }

  /** One more plain step, taken at the end. */
  lemma {:induction false} RunSnoc(prg: seq<Op>, c: Cpu, n: nat)
    requires Run(prg, c, n).pc < |prg|
    ensures Run(prg, c, n + 1) ==
              Exec(prg[Run(prg, c, n).pc], Run(prg, c, n).pc, Run(prg, c, n).acc)
    decreases n
  {
    if n > 0 && c.pc < |prg| {
      RunSnoc(prg, Exec(prg[c.pc], c.pc, c.acc), n - 1);
    }
  }

  /** The nine-instruction example program. */
  const Example: seq<Op> :=
    [Nop(0), Acc(1), Jmp(4), Acc(3), Jmp(-3), Acc(-99), Acc(1), Jmp(-4), Acc(6)]

  /** One unfolding of `execute` on an unvisited instruction. */
  lemma ExecuteStep(p: Program, pc': nat, acc': int, visited': set<nat>)
    requires VisitedInRange(p) && p.pc < |p.prg| && p.pc !in p.visited
    requires Exec(p.prg[p.pc], p.pc, p.acc) == Cpu(pc', acc')
    requires visited' == p.visited + {p.pc}
    ensures Execute(p).outcome == Execute(Program(p.prg, pc', acc', visited')).outcome
    ensures Execute(p).steps == Execute(Program(p.prg, pc', acc', visited')).steps + 1
  {
  }

  /** On the example, `execute` stops with accumulator 5 when instruction 1
      comes round again, after seven instructions. */
  lemma ExampleLoops(e: seq<Op>)
    requires e == Example
    ensures Execute(Initial(e)).outcome == Err(5)
    ensures Execute(Initial(e)).steps == 7
  {
    var p := Initial(e);
    ExecuteFollowsTrace(p);
    ExampleSevenFresh(e, Execute(p).steps);
    ExampleTrace(e);
    assert CpuOf(p) == Cpu(0, 0);
  }

  /** The example takes exactly seven fresh steps. */
  lemma ExampleSevenFresh(e: seq<Op>, n: nat)
    requires e == Example
    requires forall j :: 0 <= j < n ==> Fresh(Initial(e), j)
    requires !Fresh(Initial(e), n)
    ensures n == 7
  {
    ExampleFresh(e);
  }

  /** The plain trace of the example from the loaded machine. */
  lemma ExampleTrace(e: seq<Op>)
    requires e == Example
    ensures Run(e, Cpu(0, 0), 0) == Cpu(0, 0)
    ensures Run(e, Cpu(0, 0), 1) == Cpu(1, 0)
    ensures Run(e, Cpu(0, 0), 2) == Cpu(2, 1)
    ensures Run(e, Cpu(0, 0), 3) == Cpu(6, 1)
    ensures Run(e, Cpu(0, 0), 4) == Cpu(7, 2)
    ensures Run(e, Cpu(0, 0), 5) == Cpu(3, 2)
    ensures Run(e, Cpu(0, 0), 6) == Cpu(4, 5)
    ensures Run(e, Cpu(0, 0), 7) == Cpu(1, 5)
  {
    ExampleTraceStep(e, 0, Cpu(0, 0), Cpu(1, 0));
    ExampleTraceStep(e, 1, Cpu(1, 0), Cpu(2, 1));
    ExampleTraceStep(e, 2, Cpu(2, 1), Cpu(6, 1));
    ExampleTraceStep(e, 3, Cpu(6, 1), Cpu(7, 2));
    ExampleTraceStep(e, 4, Cpu(7, 2), Cpu(3, 2));
    ExampleTraceStep(e, 5, Cpu(3, 2), Cpu(4, 5));
    ExampleTraceStep(e, 6, Cpu(4, 5), Cpu(1, 5));
  }

  lemma ExampleTraceStep(e: seq<Op>, k: nat, c: Cpu, c': Cpu)
    requires e == Example
    requires Run(e, Cpu(0, 0), k) == c && c.pc < |e|
    requires Exec(e[c.pc], c.pc, c.acc) == c'
    ensures Run(e, Cpu(0, 0), k + 1) == c'
  {
    RunSnoc(e, Cpu(0, 0), k);
  }

  /** The first seven steps of the example are fresh, the eighth repeats. */
  lemma ExampleFresh(e: seq<Op>)
    requires e == Example
    ensures forall k :: 0 <= k < 7 ==> Fresh(Initial(e), k)
    ensures !Fresh(Initial(e), 7)
  {
    var p := Initial(e);
    ExampleTrace(e);
    assert CpuOf(p) == Cpu(0, 0);
    assert Fresh(p, 0);
    assert Fresh(p, 1);
    assert Fresh(p, 2);
    assert Fresh(p, 3);
    assert Fresh(p, 4);
    assert Fresh(p, 5);
    assert Fresh(p, 6);
    assert Run(p.prg, CpuOf(p), 1).pc == Run(p.prg, CpuOf(p), 7).pc;
  }

  /** Phase one on the example saves seven states and stops on the repeat. */
  lemma ExampleSavesSeven(e: seq<Op>, n: nat)
    requires e == Example
    requires forall j :: 0 <= j < n ==> Fresh(Initial(e), j)
    requires Run(e, Cpu(0, 0), n).pc >= |e| || Run(e, Cpu(0, 0), n).pc in Initial(e).visited + Trail(Initial(e), n)
    ensures n == 7
  {
    FreshIsNew(Initial(e), n);
    ExampleSevenFresh(e, n);
  }

  /** Trying the example's saved states from the latest: state 6 (`jmp -3`
      at index 4) still loops once swapped, state 5 is an `acc`, and state 4
      (`jmp -4` at index 7) terminates with accumulator 8 once swapped. */
  lemma ExampleCandidates(e: seq<Op>)
    requires e == Example
    ensures !Fixes(Snapshot(Initial(e), 6))
    ensures !Fixes(Snapshot(Initial(e), 5))
    ensures Fixes(Snapshot(Initial(e), 4))
    ensures Execute(Flip(Snapshot(Initial(e), 4)).value).outcome == Ok(8)
  {
    ExampleCandidate6(e);
    ExampleCandidate5(e);
    ExampleCandidate4(e);
  }

  lemma ExampleCandidate6(e: seq<Op>)
    requires e == Example
    ensures !Fixes(Snapshot(Initial(e), 6))
  {
    ExampleTrace(e);
    var p := Initial(e);
    assert CpuOf(p) == Cpu(0, 0);
    assert Trail(p, 6) == {0, 1, 2, 3, 6, 7} by {
      assert Run(e, Cpu(0, 0), 0).pc == 0;
      assert Run(e, Cpu(0, 0), 1).pc == 1;
      assert Run(e, Cpu(0, 0), 2).pc == 2;
      assert Run(e, Cpu(0, 0), 3).pc == 6;
      assert Run(e, Cpu(0, 0), 4).pc == 7;
      assert Run(e, Cpu(0, 0), 5).pc == 3;
    }
    assert Snapshot(p, 6) == Program(e, 4, 5, {0, 1, 2, 3, 6, 7});
    ExampleStillLoops(e, e[4 := Nop(-3)]);
  }

  lemma ExampleCandidate5(e: seq<Op>)
    requires e == Example
    ensures !Fixes(Snapshot(Initial(e), 5))
  {
    ExampleTrace(e);
    assert Snapshot(Initial(e), 5).pc == 3;
  }

  lemma ExampleCandidate4(e: seq<Op>)
    requires e == Example
    ensures Fixes(Snapshot(Initial(e), 4))
    ensures Execute(Flip(Snapshot(Initial(e), 4)).value).outcome == Ok(8)
  {
    ExampleSnapshotFour(e);
    ExampleFixesAtSeven(e);
  }

  /** Flipping the `jmp` at index 7 of the example, reached with the
      accumulator at 2, lets the program terminate with 8. */
  lemma ExampleFixesAtSeven(e: seq<Op>)
    requires e == Example
    ensures Fixes(Program(e, 7, 2, {0, 1, 2, 6}))
    ensures Execute(Flip(Program(e, 7, 2, {0, 1, 2, 6})).value).outcome == Ok(8)
  {
    var s := Program(e, 7, 2, {0, 1, 2, 6});
    assert VisitedInRange(s);
    ExampleRepairedRun(e, e[7 := Nop(-4)]);
  }

  /** The state saved before the fifth step of the example. */
  lemma ExampleSnapshotFour(e: seq<Op>)
    requires e == Example
    ensures Snapshot(Initial(e), 4) == Program(e, 7, 2, {0, 1, 2, 6})
  {
    ExampleTrace(e);
    var p := Initial(e);
    assert CpuOf(p) == Cpu(0, 0);
    TrailFour(p);
  }

  /** The trail of four steps is the set of their counter positions. */
  lemma TrailFour(p: Program)
    ensures Trail(p, 4) == {Run(p.prg, CpuOf(p), 0).pc, Run(p.prg, CpuOf(p), 1).pc,
                            Run(p.prg, CpuOf(p), 2).pc, Run(p.prg, CpuOf(p), 3).pc}
  {
    var r := j => Run(p.prg, CpuOf(p), j).pc;
    forall v | v in Trail(p, 4)
      ensures v == r(0) || v == r(1) || v == r(2) || v == r(3)
    {
    }
  }

  lemma ExampleRepairedRun(e: seq<Op>, f: seq<Op>)
    requires e == Example && f == e[7 := Nop(-4)]
    ensures Flip(Program(e, 7, 2, {0, 1, 2, 6})) == Some(Program(f, 7, 2, {0, 1, 2, 6}))
    ensures Execute(Program(f, 7, 2, {0, 1, 2, 6})).outcome == Ok(8)
  {
    ExecuteStep(Program(f, 7, 2, {0, 1, 2, 6}), 8, 2, {0, 1, 2, 6, 7});
    ExecuteStep(Program(f, 8, 2, {0, 1, 2, 6, 7}), 9, 8, {0, 1, 2, 6, 7, 8});
  }

  lemma ExampleStillLoops(e: seq<Op>, f: seq<Op>)
    requires e == Example && f == e[4 := Nop(-3)]
    ensures Flip(Program(e, 4, 5, {0, 1, 2, 3, 6, 7})) == Some(Program(f, 4, 5, {0, 1, 2, 3, 6, 7}))
    ensures Execute(Program(f, 4, 5, {0, 1, 2, 3, 6, 7})).outcome.Err?
  {
    ExampleFlip4(e, f);
    ExampleSwappedRun(f);
  }

  lemma ExampleFlip4(e: seq<Op>, f: seq<Op>)
    requires e == Example && f == e[4 := Nop(-3)]
    ensures Flip(Program(e, 4, 5, {0, 1, 2, 3, 6, 7})) == Some(Program(f, 4, 5, {0, 1, 2, 3, 6, 7}))
  {
  }

  /** With the `jmp -3` at index 4 swapped, the run falls through to
      index 6, which is already visited. */
  lemma ExampleSwappedRun(f: seq<Op>)
    requires f == Example[4 := Nop(-3)]
    ensures Execute(Program(f, 4, 5, {0, 1, 2, 3, 6, 7})).outcome.Err?
  {
    ExecuteStep(Program(f, 4, 5, {0, 1, 2, 3, 6, 7}), 5, 5, {0, 1, 2, 3, 4, 6, 7});
    ExampleSwappedLast(f);
  }

  lemma ExampleSwappedLast(f: seq<Op>)
    requires f == Example[4 := Nop(-3)]
    ensures Execute(Program(f, 5, 5, {0, 1, 2, 3, 4, 6, 7})).outcome.Err?
  {
    ExecuteStep(Program(f, 5, 5, {0, 1, 2, 3, 4, 6, 7}), 6, -94, {0, 1, 2, 3, 4, 5, 6, 7});
  }

  /** State 4 is the only saved state of the example that the search can
      stop at: it fixes the loop and no later state does. */
  lemma ExampleOnlyFix(e: seq<Op>, i: nat)
    requires e == Example
    requires i < 7 && Fixes(Snapshot(Initial(e), i))
    requires forall j :: i < j < 7 ==> !Fixes(Snapshot(Initial(e), j))
    ensures i == 4
    ensures Execute(Flip(Snapshot(Initial(e), i)).value).outcome == Ok(8)
  {
    ExampleCandidate4(e);
    ExampleCandidate5(e);
    ExampleCandidate6(e);
    assert !(i < 4);
    assert i != 5 && i != 6;
  }

  /** On the example, `fix_loop` returns 8. */
  method ExampleRepair() returns (r: Option<int>)
    ensures r == Some(8)
  {
    ghost var n;
    r, n := FixLoop(Initial(Example));
    ExampleSavesSeven(Example, n);
    ExampleTrace(Example);
    ExampleCandidate4(Example);
    assert r.Some?;
    ghost var i :| 0 <= i < n && Fixes(Snapshot(Initial(Example), i)) &&
      Execute(Flip(Snapshot(Initial(Example), i)).value).outcome == Ok(r.value) &&
      forall j :: i < j < n ==> !Fixes(Snapshot(Initial(Example), j));
    ExampleOnlyFix(Example, i);
  }
}
