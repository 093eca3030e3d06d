/**
 * `emu_cont` of emu/src/emu.c in the machine's own terms: what stops a run, and where a breakpoint that has
 * been set does.
 */
module Runs {
  import opened Bytes
  import opened Stepping
  import opened Riscv

  /**
   * The next instruction is in the code and not at the breakpoint, is implemented, stays in memory, and
   * leaves the tohost byte zero.
   */
  predicate Onward(m: Machine)
  {
    && Ok(m) && m.pc < m.codeSize && m.pc != m.bpAddr && StepI(m).Ran? && StepI(m).ok
    && |StepI(m).m.mem| == MEM_SIZE && StepI(m).m.mem[0xffc] == 0
  }

  /** `n` such instructions lead from `m` to `x`. */
  ghost predicate Goes(m: Machine, n: nat, x: Machine)
    decreases n
  {
    if n == 0 then m == x else Onward(m) && Goes(StepI(m).m, n - 1, x)
  }

  lemma OnwardIs(m: Machine)
    requires Ok(m)
    ensures Onward(m) <==> Why(m).None? && StepI(m).Ran? && StepI(m).ok && !ToHostSet(StepI(m).m)
    ensures Onward(m) ==> Ok(StepI(m).m)
  {
    StepKeeps(m);
  }

  lemma {:induction false} GoesIs(m: Machine, n: nat, x: Machine)
    requires Ok(m)
    ensures Goes(m, n, x) <==> GoesOn(StepI, Why, ToHostSet, m, n) && StepMany(StepI, m, n) == Some(x)
    decreases n
  {
    if n > 0 {
      OnwardIs(m);
      if Onward(m) {
        GoesIs(StepI(m).m, n - 1, x);
      }
    }
  }

  /** The run has come to `x` after `n` instructions and goes no further: how, and with what. */
  function EndAt(x: Machine, n: nat, budget: nat): (e: Option<Ended<Machine, Reason>>)
    requires Ok(x)
  {
    if x.pc >= x.codeSize then Some(Ended(x, n, NotRun(EndOfCode)))
    else if x.pc == x.bpAddr then Some(Ended(x, n, NotRun(AtBreakpoint)))
    else if n == budget then Some(Ended(x, n, Halted))
    else if StepI(x).Wild? then Some(Ended(x, n, WildAccess))
    else if !StepI(x).ok then Some(Ended(StepI(x).m, n + 1, BadInstruction))
    else if |StepI(x).m.mem| == MEM_SIZE && StepI(x).m.mem[0xffc] != 0 then Some(Ended(StepI(x).m, n + 1, ToHost))
    else None
  }

  /**
   * A continue goes on from instruction to instruction until it comes to the end of the code, to the
   * breakpoint, to the round in which the halt is seen, to an instruction that leaves memory or is not
   * implemented, or to one after which the tohost byte is set; and it comes to one of them.
   */
  lemma ContinueMeans(m: Machine, budget: nat)
    requires Ok(m)
    ensures forall n: nat, x: Machine :: n <= budget && Goes(m, n, x) ==>
              Ok(x) && (EndAt(x, n, budget).Some? ==> Riscv.Continue(m, budget) == EndAt(x, n, budget).value)
    ensures exists n: nat, x: Machine :: n <= budget && Goes(m, n, x) && Ok(x) && EndAt(x, n, budget).Some?
  {
    forall n: nat, x: Machine | n <= budget && Goes(m, n, x)
      ensures Ok(x) && (EndAt(x, n, budget).Some? ==> Riscv.Continue(m, budget) == EndAt(x, n, budget).value)
    {
      GoesIs(m, n, x);
      RunKeeps(m, n);
      EndsThere(m, budget, n, x);
    }
    var n, x := ComesToEnd(m, budget);
    StopsEnds(x, n, budget);
    assert n <= budget && Goes(m, n, x) && Ok(x) && EndAt(x, n, budget).Some?;
  }

  lemma EndsThere(m: Machine, budget: nat, n: nat, x: Machine)
    requires Ok(m) && Ok(x) && n <= budget
    requires GoesOn(StepI, Why, ToHostSet, m, n) && StepMany(StepI, m, n) == Some(x)
    ensures EndAt(x, n, budget).Some? ==> Riscv.Continue(m, budget) == EndAt(x, n, budget).value
  {
    ContinueAfter(StepI, Why, ToHostSet, m, n, x, budget);
    StepKeeps(x);
  }

  /** The run goes no further; `last` when the halt is seen now. */
  predicate Stops(x: Machine, last: bool)
  {
    || x.pc >= x.codeSize || x.pc == x.bpAddr || last || StepI(x).Wild? || !StepI(x).ok
    || (|StepI(x).m.mem| == MEM_SIZE && StepI(x).m.mem[0xffc] != 0)
  }

  lemma StopsEnds(x: Machine, n: nat, budget: nat)
    requires Ok(x) && Stops(x, n == budget)
    ensures EndAt(x, n, budget).Some?
  {
  }

  /** Round by round the run comes to an end within the budget. */
  lemma {:induction false} ComesToEnd(m: Machine, budget: nat) returns (n: nat, x: Machine)
    requires Ok(m)
    ensures n <= budget && Goes(m, n, x) && Ok(x) && Stops(x, n == budget)
    decreases budget
  {
    if Stops(m, budget == 0) {
      return 0, m;
    }
    var next := OneRound(m);
    n, x := ComesToEnd(next, budget - 1);
    n := n + 1;
  }

  lemma OneRound(m: Machine) returns (next: Machine)
    requires Ok(m) && !Stops(m, false)
    ensures Onward(m) && StepI(m) == Ran(next, true) && Ok(next)
  {
    StepKeeps(m);
    next := StepI(m).m;
  }

  // ---------------------------------------------------------------- a breakpoint that is set

  /** Only a software breakpoint is set, and only one; a refusal changes nothing. */
  lemma SetOrRefused(m: Machine, addr: u64, software: bool)
    ensures var (ok, b) := SetBreakpoint(m, addr, software);
      && (ok <==> software && !m.bpIsSet)
      && (ok ==> b.bpIsSet) && (!ok ==> b == m)
      && b.x == m.x && b.pc == m.pc && b.mem == m.mem && b.codeSize == m.codeSize
  {
  }

  /** About to run the instruction at `addr`. */
  predicate ComesTo(x: Machine, addr: u64)
  {
    x.pc == addr < x.codeSize
  }

  lemma SetReason(m: Machine, addr: u64, x: Machine)
    requires !m.bpIsSet && x.bpAddr == SetBreakpoint(m, addr, true).1.bpAddr
    ensures Why(x) == Some(AtBreakpoint) <==> ComesTo(x, addr)
  {
  }

  /** A continue is stopped by the breakpoint exactly when its run comes to the address within the budget. */
  lemma SetStops(m: Machine, addr: u64, budget: nat)
    requires Ok(m) && !m.bpIsSet
    ensures var b := SetBreakpoint(m, addr, true).1;
      Riscv.Continue(b, budget).stop == NotRun(AtBreakpoint)
      <==> exists n: nat, x: Machine :: n <= budget && Goes(b, n, x) && ComesTo(x, addr)
  {
    var b := SetBreakpoint(m, addr, true).1;
    StopsIfVisits(StepI, Why, ToHostSet, b, budget, AtBreakpoint);
    if n: nat, x: Machine :| n <= budget && Goes(b, n, x) && ComesTo(x, addr) {
      GoesIs(b, n, x);
      RunKeeps(b, n);
      SetReason(m, addr, x);
    }
    if n: nat, x: Machine :| n <= budget && GoesOn(StepI, Why, ToHostSet, b, n) && StepMany(StepI, b, n) == Some(x)
                             && Why(x) == Some(AtBreakpoint) {
      GoesIs(b, n, x);
      RunKeeps(b, n);
      SetReason(m, addr, x);
      assert n <= budget && Goes(b, n, x) && ComesTo(x, addr);
    }
  }

  /** Where it is then: at the address, with that instruction still to run, and not there before. */
  lemma StoppedThere(m: Machine, addr: u64, budget: nat)
    requires Ok(m) && !m.bpIsSet
    ensures var e := Riscv.Continue(SetBreakpoint(m, addr, true).1, budget);
      e.stop == NotRun(AtBreakpoint) ==> ComesTo(e.m, addr)
  {
    var b := SetBreakpoint(m, addr, true).1;
    ContinueIsStepI(b, budget);
    var e := Riscv.Continue(b, budget);
    RunKeeps(b, e.steps);
    SetReason(m, addr, e.m);
  }

  lemma VisitsAddress(b: Machine, budget: nat, addr: u64)
    requires Ok(b)
    ensures Visits(StepI, Why, ToHostSet, b, budget, (x: Machine) => ComesTo(x, addr))
      <==> exists n: nat, x: Machine :: n <= budget && Goes(b, n, x) && ComesTo(x, addr)
  {
    var good := (x: Machine) => ComesTo(x, addr);
    if n: nat, x: Machine :| n <= budget && Goes(b, n, x) && ComesTo(x, addr) {
      GoesIs(b, n, x);
      assert GoesOn(StepI, Why, ToHostSet, b, n) && StepMany(StepI, b, n) == Some(x) && good(x);
    }
    if Visits(StepI, Why, ToHostSet, b, budget, good) {
      var n: nat, x: Machine :| n <= budget && GoesOn(StepI, Why, ToHostSet, b, n)
                                && StepMany(StepI, b, n) == Some(x) && good(x);
      GoesIs(b, n, x);
      assert n <= budget && Goes(b, n, x) && ComesTo(x, addr);
    }
  }

  /** A run comes to the address with the breakpoint there exactly when it does without any. */
  lemma {:induction false} SameWay(b: Machine, budget: nat, addr: u64)
    requires Ok(b) && b.bpAddr == addr
    ensures Visits(StepI, Why, ToHostSet, b, budget, (x: Machine) => ComesTo(x, addr))
      <==> Visits(StepI, Why, ToHostSet, Cleared(b), budget, (x: Machine) => ComesTo(x, addr))
    decreases budget
  {
    var good := (x: Machine) => ComesTo(x, addr);
    VisitsStep(StepI, Why, ToHostSet, b, budget, good);
    VisitsStep(StepI, Why, ToHostSet, Cleared(b), budget, good);
    StepIgnoresBreakpoint(b);
    StepKeeps(b);
    if budget > 0 && !ComesTo(b, addr) && b.pc < b.codeSize && StepI(b).Ran? {
      SameWay(StepI(b).m, budget - 1, addr);
    }
  }

  /**
   * What a breakpoint is for: it stops a continue exactly when the same run without any breakpoint
   * would come to its address within the budget.
   */
  lemma BreakpointStops(m: Machine, addr: u64, budget: nat)
    requires Ok(m) && !m.bpIsSet
    ensures Riscv.Continue(SetBreakpoint(m, addr, true).1, budget).stop == NotRun(AtBreakpoint)
      <==> exists n: nat, x: Machine :: n <= budget && Goes(Cleared(m), n, x) && ComesTo(x, addr)
  {
    var b := SetBreakpoint(m, addr, true).1;
    SetStops(m, addr, budget);
    VisitsAddress(b, budget, addr);
    SetClears(m, addr);
    SameWay(b, budget, addr);
    VisitsAddress(Cleared(m), budget, addr);
  }

  lemma SetClears(m: Machine, addr: u64)
    requires !m.bpIsSet
    ensures Cleared(SetBreakpoint(m, addr, true).1) == Cleared(m)
  {
  }

  /** Deleting the address clears the breakpoint; deleting another one leaves it, and says so no less. */
  lemma SetThenDeleted(m: Machine, addr: u64, other: u64, software: bool)
    requires !m.bpIsSet
    ensures var b := SetBreakpoint(m, addr, true).1;
      && DeleteBreakpoint(b, addr, true).0 && !DeleteBreakpoint(b, addr, true).1.bpIsSet
      && (other != addr || !software ==> DeleteBreakpoint(b, other, software) == (true, b))
      && SetBreakpoint(DeleteBreakpoint(b, addr, true).1, other, true).0
  {
  }
}
