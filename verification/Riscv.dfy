/**
 * The instructions of the reference emulator (emu/src/emu.c) as functions of the machine state.
 *
 * Bit fields are written as division and remainder. An access of the guest outside the emulator's
 * memory is undefined behaviour in the source; here it is the outcome `Wild`.
 */
module Riscv {
  import opened Bytes
  import opened LittleEndian
  import opened Stepping

  const W32 := 0x1_0000_0000
  const W64 := 0x1_0000_0000_0000_0000

  /** `uint64_t` */
  type u64 = v: int | 0 <= v < W64

  const MEM_SIZE := 0x1000
  const TOHOST_ADDR := MEM_SIZE - 4

  datatype Machine = Machine(x: seq<u64>, pc: u64, mem: seq<byte>, codeSize: nat, bpIsSet: bool, bpAddr: u64)

  /** 32 registers, the emulator's memory, and code that leaves the last word free. */
  predicate Ok(m: Machine)
  {
    |m.x| == 32 && |m.mem| == MEM_SIZE && m.codeSize <= TOHOST_ADDR
  }

  /** Conversion of any integer to `uint64_t`. */
  function U64(v: int): u64
  {
    v % W64
  }

  /** The value of a `uint64_t` read as `int64_t`. */
  function Signed64(v: u64): int
  {
    if v < 0x8000_0000_0000_0000 then v else v - W64
  }

  /** `(int32_t) v` for a 32-bit value. */
  function Signed32(v: int): int
  {
    var low := v % W32;
    if low < 0x8000_0000 then low else low - W32
  }

  // ---------------------------------------------------------------- decoding

  type word = v: int | 0 <= v < W32

  function Opcode(raw: word): nat { raw % 128 }

  function Rd(raw: word): (r: nat)
    ensures r < 32
  {
    raw / 0x80 % 32
  }

  function Funct3(raw: word): nat { raw / 0x1000 % 8 }

  function Rs1(raw: word): (r: nat)
    ensures r < 32
  {
    raw / 0x8000 % 32
  }

  function Rs2(raw: word): (r: nat)
    ensures r < 32
  {
    raw / 0x10_0000 % 32
  }

  function Funct7(raw: word): nat { raw / 0x200_0000 }

  /** Bits 31:20, sign-extended. */
  function ImmI(raw: word): int
  {
    var u := raw / 0x10_0000;
    if u < 2048 then u else u - 4096
  }

  /** Bits 31:25 and 11:7, sign-extended. */
  function ImmS(raw: word): int
  {
    var u := raw / 0x200_0000 * 32 + raw / 0x80 % 32;
    if u < 2048 then u else u - 4096
  }

  /** Bits 31:12 in place, sign-extended. */
  function ImmU(raw: word): int
  {
    Signed32(raw / 0x1000 * 0x1000)
  }

  /** imm[20|10:1|11|19:12] = raw[31|30:21|20|19:12], sign-extended. */
  function ImmJ(raw: word): int
  {
    raw / 0x20_0000 % 1024 * 2
    + raw / 0x10_0000 % 2 * 0x800
    + raw / 0x1000 % 256 * 0x1000
    - raw / 0x8000_0000 * 0x10_0000
  }

  // ---------------------------------------------------------------- execution

  type Effect = Outcome<Machine>

  function SetReg(m: Machine, rd: nat, v: int): Machine
    requires Ok(m) && rd < 32
  {
    m.(x := m.x[rd := U64(v)])
  }

  function Address(m: Machine, rs1: nat, imm: int): u64
    requires Ok(m) && rs1 < 32
  {
    U64(m.x[rs1] + imm)
  }

  predicate InMemory(addr: nat, n: nat)
  {
    addr + n <= MEM_SIZE
  }

  /** lw and ld: `n` bytes, zero-extended, into rd. */
  function DoLoad(m: Machine, raw: word, n: nat): Effect
    requires Ok(m)
  {
    var addr := Address(m, Rs1(raw), ImmI(raw));
    if InMemory(addr, n) then Ran(SetReg(m, Rd(raw), Load(m.mem, addr, n)), true) else Wild
  }

  /** sb, sw and sd: the low `n` bytes of rs2. */
  function DoStore(m: Machine, raw: word, n: nat): Effect
    requires Ok(m)
  {
    var addr := Address(m, Rs1(raw), ImmS(raw));
    if InMemory(addr, n) then Ran(m.(mem := Store(m.mem, addr, n, m.x[Rs2(raw)])), true) else Wild
  }

  /** jalr as written: rd gets the return address before rs1 is read. */
  function DoJalr(m: Machine, raw: word): Machine
    requires Ok(m)
  {
    var linked := SetReg(m, Rd(raw), m.pc);
    var target := U64(linked.x[Rs1(raw)] + ImmI(raw));
    linked.(pc := U64(target - target % 2))
  }

  /** The switch of `emu_exec`; `pc` already points behind the instruction. */
  function Dispatch(m: Machine, raw: word): Effect
    requires Ok(m)
  {
    var rd, a, b, f3 := Rd(raw), m.x[Rs1(raw)], m.x[Rs2(raw)], Funct3(raw);
    match Opcode(raw)
    case 0x03 => if f3 == 2 then DoLoad(m, raw, 4) else if f3 == 3 then DoLoad(m, raw, 8) else Ran(m, false)
    case 0x13 =>
      if f3 == 0 then Ran(SetReg(m, rd, a + ImmI(raw)), true)
      else if f3 == 2 then Ran(SetReg(m, rd, if Signed64(a) < ImmI(raw) then 1 else 0), true)
      else Ran(m, false)
    case 0x17 => Ran(SetReg(m, rd, m.pc + ImmU(raw) - 4), true)
    case 0x1b => if f3 == 0 then Ran(SetReg(m, rd, Signed32(a + ImmI(raw))), true) else Ran(m, false)
    case 0x23 =>
      if f3 == 0 then DoStore(m, raw, 1)
      else if f3 == 2 then DoStore(m, raw, 4)
      else if f3 == 3 then DoStore(m, raw, 8)
      else Ran(m, false)
    case 0x33 => if f3 == 0 && Funct7(raw) == 0 then Ran(SetReg(m, rd, a + b), true) else Ran(m, false)
    case 0x37 => Ran(SetReg(m, rd, ImmU(raw)), true)
    case 0x3b => if f3 == 0 && Funct7(raw) == 0 then Ran(SetReg(m, rd, Signed32(a + b)), true) else Ran(m, false)
    case 0x67 => Ran(DoJalr(m, raw), true)
    case 0x6f => Ran(SetReg(m, rd, m.pc).(pc := U64(m.pc + ImmJ(raw) - 4)), true)
    case _ => Ran(m, false)
  }

  /** `emu_exec`: x0 is cleared before the instruction, not after it. */
  function Exec(m: Machine, raw: word): Effect
    requires Ok(m)
  {
    Dispatch(m.(x := m.x[0 := 0]), raw)
  }

  /** Fetch, advance, execute: what one round of `emu_cont` and `emu_stepi` have in common. */
  function Step(m: Machine): Effect
    requires Ok(m) && m.pc < m.codeSize
  {
    FetchIsWord(m);
    Exec(m.(pc := U64(m.pc + 4)), Load(m.mem, m.pc, 4))
  }

  /** Every fetch is within memory: the code leaves the last word free. */
  lemma FetchIsWord(m: Machine)
    requires Ok(m) && m.pc < m.codeSize
    ensures InMemory(m.pc, 4) && 0 <= Load(m.mem, m.pc, 4) < W32
  {
    FromBytesBound(m.mem[m.pc..m.pc + 4]);
    Pow256Four();
  }

  lemma Pow256Four()
    ensures Pow256(4) == W32
  {
    assert Pow256(3) == 256 * Pow256(2);
  }

  lemma Pow256Eight()
    ensures Pow256(8) == W64
  {
    Pow256Four();
    assert Pow256(6) == 256 * (256 * Pow256(4));
  }

  /** Every instruction keeps the machine well-formed, its code size and its breakpoint. */
  lemma ExecKeeps(m: Machine, raw: word)
    requires Ok(m)
    ensures var r := Exec(m, raw);
      r.Ran? ==> Ok(r.m) && r.m.codeSize == m.codeSize && r.m.bpAddr == m.bpAddr && r.m.bpIsSet == m.bpIsSet
  {
  }

  // ---------------------------------------------------------------- what the instructions do and do not promise

  /** x0 reads as zero: what it holds when an instruction starts never matters. */
  lemma ZeroRegister(m: Machine, raw: word, v: u64)
    requires Ok(m)
    ensures Exec(m.(x := m.x[0 := v]), raw) == Exec(m, raw)
  {
    assert m.x[0 := v][0 := 0] == m.x[0 := 0];
  }

  /** The target with its lowest bit cleared, for a base register value. */
  function JumpTarget(base: u64, imm: int): u64
  {
    var t := U64(base + imm);
    t - t % 2
  }

  /** jalr jumps where the manual says, from rs1's old value, exactly when writing rd first makes no difference. */
  lemma JalrExact(m: Machine, raw: word)
    requires Ok(m) && Opcode(raw) == 0x67
    ensures var r := Dispatch(m, raw);
      r.Ran? && (r.m.pc == JumpTarget(m.x[Rs1(raw)], ImmI(raw))
        <==> Rd(raw) != Rs1(raw) || JumpTarget(m.pc, ImmI(raw)) == JumpTarget(m.x[Rs1(raw)], ImmI(raw)))
  {
    LinkedBase(m, Rd(raw), Rs1(raw));
    JalrTarget(m, raw);
    assert Dispatch(m, raw) == Ran(DoJalr(m, raw), true);
  }

  lemma LinkedBase(m: Machine, rd: nat, rs1: nat)
    requires Ok(m) && rd < 32 && rs1 < 32
    ensures SetReg(m, rd, m.pc).x[rs1] == if rd == rs1 then m.pc else m.x[rs1]
  {
  }

  lemma JalrTarget(m: Machine, raw: word)
    requires Ok(m)
    ensures DoJalr(m, raw).pc == JumpTarget(SetReg(m, Rd(raw), m.pc).x[Rs1(raw)], ImmI(raw))
  {
    EvenTarget(U64(SetReg(m, Rd(raw), m.pc).x[Rs1(raw)] + ImmI(raw)));
  }

  lemma EvenTarget(t: u64)
    ensures U64(t - t % 2) == t - t % 2
  {
  }

  /** `jalr x1, 0(x1)` at address 4 with 0x100 in x1 goes on at 8. */
  lemma JalrFails(m: Machine)
    requires Ok(m) && m.pc == 8 && m.x[1] == 0x100
    ensures Dispatch(m, 0x0000_80e7).Ran? && Dispatch(m, 0x0000_80e7).m.pc == 8 != JumpTarget(m.x[1], 0)
  {
    JalrTarget(m, 0x0000_80e7);
    LinkedBase(m, 1, 1);
    assert Dispatch(m, 0x0000_80e7) == Ran(DoJalr(m, 0x0000_80e7), true);
  }

  /** lw leaves the manual's sign-extended value in rd exactly when the word's top bit is clear. */
  lemma LoadWordExact(m: Machine, raw: word)
    requires Ok(m) && Opcode(raw) == 0x03 && Funct3(raw) == 2
    requires InMemory(Address(m, Rs1(raw), ImmI(raw)), 4)
    ensures var v, r := Load(m.mem, Address(m, Rs1(raw), ImmI(raw)), 4), Dispatch(m, raw);
      r.Ran? && Ok(r.m) && (r.m.x[Rd(raw)] == U64(Signed32(v)) <==> v < 0x8000_0000)
  {
    var addr := Address(m, Rs1(raw), ImmI(raw));
    DispatchMemory(m, raw, 4);
    WordBound(m.mem, addr);
    SignExtended(Load(m.mem, addr, 4));
    assert DoLoad(m, raw, 4) == Ran(SetReg(m, Rd(raw), Load(m.mem, addr, 4)), true);
  }

  lemma WordBound(mem: seq<byte>, addr: nat)
    requires addr + 4 <= |mem|
    ensures Load(mem, addr, 4) < W32
  {
    FromBytesBound(mem[addr..addr + 4]);
    Pow256Four();
  }

  lemma SignExtended(v: nat)
    requires v < W32
    ensures U64(v) == U64(Signed32(v)) <==> v < 0x8000_0000
  {
  }

  /** `lw x5, 0(x0)` of four bytes 0xff gives 2^32 - 1, and not -1. */
  lemma LoadWordFails(m: Machine)
    requires Ok(m) && m.x[0] == 0 && m.mem[0..4] == [0xff, 0xff, 0xff, 0xff]
    ensures Dispatch(m, 0x0000_2283).Ran? && Dispatch(m, 0x0000_2283).m.x[5] == 0xffff_ffff != U64(-1)
  {
    var raw: word := 0x0000_2283;
    DispatchMemory(m, raw, 4);
    AllOnes();
    assert Address(m, Rs1(raw), ImmI(raw)) == 0;
    assert DoLoad(m, raw, 4) == Ran(SetReg(m, 5, 0xffff_ffff), true);
  }

  lemma AllOnes()
    ensures FromBytes([0xff, 0xff, 0xff, 0xff]) == 0xffff_ffff
  {
    var s: seq<byte> := [0xff, 0xff, 0xff, 0xff];
    assert s[1..] == [0xff, 0xff, 0xff] && s[1..][1..] == [0xff, 0xff] && s[1..][1..][1..] == [0xff];
    assert s[1..][1..][1..][1..] == [];
    assert FromBytes([0xff]) == 0xff;
    assert FromBytes([0xff, 0xff]) == 0xffff;
    assert FromBytes([0xff, 0xff, 0xff]) == 0xff_ffff;
  }

  lemma StoreRuns(m: Machine, raw: word, n: nat, addr: u64)
    requires Ok(m) && addr == Address(m, Rs1(raw), ImmS(raw)) && InMemory(addr, n)
    ensures DoStore(m, raw, n) == Ran(m.(mem := Store(m.mem, addr, n, m.x[Rs2(raw)])), true)
  {
  }

  lemma LoadRuns(m: Machine, raw: word, n: nat, addr: u64)
    requires Ok(m) && addr == Address(m, Rs1(raw), ImmI(raw)) && InMemory(addr, n)
    ensures DoLoad(m, raw, n) == Ran(SetReg(m, Rd(raw), Load(m.mem, addr, n)), true)
  {
  }

  lemma SameAddress(m: Machine, s: Machine, rs1: nat, imm: int)
    requires Ok(m) && Ok(s) && rs1 < 32 && s.x == m.x
    ensures Address(s, rs1, imm) == Address(m, rs1, imm)
  {
  }

  /** A store and a load of `n` bytes at one address: the load reads from the memory the store left. */
  lemma StoreThenLoad(m: Machine, store: word, load: word, n: nat, addr: u64)
    requires Ok(m) && InMemory(addr, n)
    requires addr == Address(m, Rs1(store), ImmS(store)) && addr == Address(m, Rs1(load), ImmI(load))
    ensures var s := m.(mem := Store(m.mem, addr, n, m.x[Rs2(store)]));
      Ok(s) && DoStore(m, store, n) == Ran(s, true)
      && DoLoad(s, load, n) == Ran(SetReg(s, Rd(load), Load(s.mem, addr, n)), true)
  {
    var s := m.(mem := Store(m.mem, addr, n, m.x[Rs2(store)]));
    StoreRuns(m, store, n, addr);
    SameAddress(m, s, Rs1(load), ImmI(load));
    LoadRuns(s, load, n, addr);
  }

  /** sd then ld restores the stored register's whole value. */
  lemma StoreLoadDouble(m: Machine, store: word, load: word)
    requires Ok(m)
    requires Opcode(store) == 0x23 && Funct3(store) == 3 && Opcode(load) == 0x03 && Funct3(load) == 3
    requires Address(m, Rs1(store), ImmS(store)) == Address(m, Rs1(load), ImmI(load))
    requires InMemory(Address(m, Rs1(store), ImmS(store)), 8)
    ensures var s := Dispatch(m, store);
      s.Ran? && s.ok && Ok(s.m) && Dispatch(s.m, load) == Ran(SetReg(s.m, Rd(load), m.x[Rs2(store)]), true)
  {
    StoreThenLoad(m, store, load, 8, Address(m, Rs1(store), ImmS(store)));
    DispatchMemory(m, store, 8);
    DispatchMemory(DoStore(m, store, 8).m, load, 8);
    WholeDouble(m.mem, Address(m, Rs1(store), ImmS(store)), m.x[Rs2(store)]);
  }

  lemma WholeDouble(mem: seq<byte>, addr: nat, v: u64)
    requires addr + 8 <= |mem|
    ensures Load(Store(mem, addr, 8, v), addr, 8) == v
  {
    Pow256Eight();
    LoadStore(mem, addr, 8, v);
  }

  /** sw then lw gives the stored register's low 32 bits, zero-extended. */
  lemma StoreLoadWord(m: Machine, store: word, load: word)
    requires Ok(m)
    requires Opcode(store) == 0x23 && Funct3(store) == 2 && Opcode(load) == 0x03 && Funct3(load) == 2
    requires Address(m, Rs1(store), ImmS(store)) == Address(m, Rs1(load), ImmI(load))
    requires InMemory(Address(m, Rs1(store), ImmS(store)), 4)
    ensures var s := Dispatch(m, store);
      s.Ran? && s.ok && Ok(s.m) && Dispatch(s.m, load) == Ran(SetReg(s.m, Rd(load), m.x[Rs2(store)] % W32), true)
  {
    StoreThenLoad(m, store, load, 4, Address(m, Rs1(store), ImmS(store)));
    DispatchMemory(m, store, 4);
    DispatchMemory(DoStore(m, store, 4).m, load, 4);
    LowWord(m.mem, Address(m, Rs1(store), ImmS(store)), m.x[Rs2(store)]);
  }

  lemma LowWord(mem: seq<byte>, addr: nat, v: u64)
    requires addr + 4 <= |mem|
    ensures Load(Store(mem, addr, 4, v), addr, 4) == v % W32
  {
    Pow256Four();
    LoadStore(mem, addr, 4, v);
  }

  lemma DispatchMemory(m: Machine, raw: word, n: nat)
    requires Ok(m) && (n == 4 || n == 8) && Funct3(raw) == (if n == 4 then 2 else 3)
    ensures Opcode(raw) == 0x23 ==> Dispatch(m, raw) == DoStore(m, raw, n)
    ensures Opcode(raw) == 0x03 ==> Dispatch(m, raw) == DoLoad(m, raw, n)
  {
  }

  // ---------------------------------------------------------------- stepping and continuing

  /** `emu_stepi`: one instruction if the pc is in the code; an unimplemented one is ignored. */
  function StepI(m: Machine): Effect
  {
    if Ok(m) && m.pc < m.codeSize then Step(m) else Ran(m, true)
  }

  lemma StepKeeps(m: Machine)
    requires Ok(m)
    ensures var r := StepI(m);
      r.Ran? ==> Ok(r.m) && r.m.codeSize == m.codeSize && r.m.bpAddr == m.bpAddr && r.m.bpIsSet == m.bpIsSet
  {
    if m.pc < m.codeSize {
      FetchIsWord(m);
      ExecKeeps(m.(pc := U64(m.pc + 4)), Load(m.mem, m.pc, 4));
    }
  }

  datatype Reason = EndOfCode | AtBreakpoint

  /** Why `emu_cont` would not run an instruction, apart from the halt flag. */
  function Why(m: Machine): Option<Reason>
  {
    if !(m.pc < m.codeSize) then Some(EndOfCode) else if m.pc == m.bpAddr then Some(AtBreakpoint) else None
  }

  /** The tohost byte the guest writes to end the run. */
  predicate ToHostSet(m: Machine)
  {
    Ok(m) && m.mem[TOHOST_ADDR] != 0
  }

  /** `emu_cont` when the halt flag is seen set after `budget` rounds. */
  function Continue(m: Machine, budget: nat): Ended<Machine, Reason>
  {
    Stepping.Continue(StepI, Why, ToHostSet, m, budget)
  }

  /**
   * A continue that returns has done what that many `emu_stepi` do, and it ends for the first
   * reason there is: the end of the code, the breakpoint, the halt flag, an unimplemented
   * instruction, a tohost byte, or a wild access.
   */
  lemma ContinueIsStepI(m: Machine, budget: nat)
    ensures var e := Continue(m, budget);
      && e.steps <= budget && StepMany(StepI, m, e.steps) == Some(e.m)
      && StopsRightly(StepI, Why, ToHostSet, m, budget, e)
    ensures forall e: Ended<Machine, Reason> ::
      e.steps <= budget && StepMany(StepI, m, e.steps) == Some(e.m) && StopsRightly(StepI, Why, ToHostSet, m, budget, e)
      ==> e == Continue(m, budget)
  {
    ContinueIsSteps(StepI, Why, ToHostSet, m, budget);
    forall e: Ended<Machine, Reason> |
      e.steps <= budget && StepMany(StepI, m, e.steps) == Some(e.m) && StopsRightly(StepI, Why, ToHostSet, m, budget, e)
      ensures e == Continue(m, budget)
    {
      RightEndUnique(StepI, Why, ToHostSet, m, budget, e);
    }
  }

  // ---------------------------------------------------------------- breakpoints

  const NO_BREAKPOINT: u64 := W64 - 1

  function SetBreakpoint(m: Machine, addr: u64, software: bool): (bool, Machine)
  {
    if !software || m.bpIsSet then (false, m) else (true, m.(bpIsSet := true, bpAddr := addr))
  }

  /** `emu_del_bp`: always reports success, and leaves address 0 behind. */
  function DeleteBreakpoint(m: Machine, addr: u64, software: bool): (bool, Machine)
  {
    if !software || !m.bpIsSet || m.bpAddr != addr then (true, m) else (true, m.(bpIsSet := false, bpAddr := 0))
  }

  /** The machine is about to run the instruction at address 0. */
  predicate AtZero(m: Machine)
  {
    m.pc == 0 < m.codeSize
  }

  /** `n` rounds from `m` lead to `x`, which would run the instruction at address 0. */
  ghost predicate ComesByZero(m: Machine, n: nat, x: Machine)
  {
    GoesOn(StepI, Why, ToHostSet, m, n) && StepMany(StepI, m, n) == Some(x) && AtZero(x)
  }

  /** What deletion leaves behind. */
  predicate Deleted(m: Machine)
  {
    Ok(m) && !m.bpIsSet && m.bpAddr == 0
  }

  lemma {:induction false} RunKeeps(m: Machine, n: nat)
    requires Ok(m) && StepMany(StepI, m, n).Some?
    ensures var x := StepMany(StepI, m, n).value;
      Ok(x) && x.codeSize == m.codeSize && x.bpAddr == m.bpAddr && x.bpIsSet == m.bpIsSet
    decreases n
  {
    if n > 0 {
      StepKeeps(m);
      RunKeeps(StepI(m).m, n - 1);
    }
  }

  lemma StopsAtZero(d: Machine, budget: nat)
    requires Deleted(d)
    ensures Continue(d, budget).stop == NotRun(AtBreakpoint)
      <==> exists n: nat, x: Machine :: n <= budget && ComesByZero(d, n, x)
  {
    StopsIfVisits(StepI, Why, ToHostSet, d, budget, AtBreakpoint);
    if n: nat, x: Machine :| n <= budget && ComesByZero(d, n, x) {
      AtZeroStops(d, n, x);
    }
    if n: nat, x: Machine :| n <= budget && GoesOn(StepI, Why, ToHostSet, d, n) && StepMany(StepI, d, n) == Some(x)
                             && Why(x) == Some(AtBreakpoint) {
      AtZeroStops(d, n, x);
      assert ComesByZero(d, n, x);
    }
  }

  lemma AtZeroStops(d: Machine, n: nat, x: Machine)
    requires Deleted(d) && StepMany(StepI, d, n) == Some(x)
    ensures AtZero(x) <==> Why(x) == Some(AtBreakpoint)
  {
    RunKeeps(d, n);
  }

  /** The machine after the breakpoint that is set has been deleted. */
  function AfterDeletion(m: Machine): Machine
  {
    DeleteBreakpoint(m, m.bpAddr, true).1
  }

  lemma DeletionLeaves(m: Machine)
    requires Ok(m) && m.bpIsSet
    ensures DeleteBreakpoint(m, m.bpAddr, true).0 && Deleted(AfterDeletion(m))
  {
  }

  /**
   * After its deletion a breakpoint still stops a continue, at once or later, exactly when the run
   * comes to address 0.
   */
  lemma DeletedBreakpointStops(m: Machine, budget: nat)
    requires Ok(m) && m.bpIsSet
    ensures Continue(AfterDeletion(m), budget).stop == NotRun(AtBreakpoint)
      <==> exists n: nat, x: Machine :: n <= budget && ComesByZero(AfterDeletion(m), n, x)
  {
    DeletionLeaves(m);
    StopsAtZero(AfterDeletion(m), budget);
  }

  /** The machine as if no breakpoint had ever been set. */
  function Cleared(m: Machine): Machine
  {
    m.(bpIsSet := false, bpAddr := NO_BREAKPOINT)
  }

  function ClearedEffect(e: Effect): Effect
  {
    if e.Wild? then Wild else Ran(Cleared(e.m), e.ok)
  }

  lemma MemoryIgnoresBreakpoint(m: Machine, raw: word, n: nat)
    requires Ok(m)
    ensures DoLoad(Cleared(m), raw, n) == ClearedEffect(DoLoad(m, raw, n))
    ensures DoStore(Cleared(m), raw, n) == ClearedEffect(DoStore(m, raw, n))
  {
  }

  lemma LoadsIgnoreBreakpoint(m: Machine, raw: word)
    requires Ok(m) && (Opcode(raw) == 0x03 || Opcode(raw) == 0x23)
    ensures Dispatch(Cleared(m), raw) == ClearedEffect(Dispatch(m, raw))
  {
    MemoryIgnoresBreakpoint(m, raw, 1);
    MemoryIgnoresBreakpoint(m, raw, 4);
    MemoryIgnoresBreakpoint(m, raw, 8);
  }

  lemma JumpsIgnoreBreakpoint(m: Machine, raw: word)
    requires Ok(m) && (Opcode(raw) == 0x67 || Opcode(raw) == 0x6f)
    ensures Dispatch(Cleared(m), raw) == ClearedEffect(Dispatch(m, raw))
  {
    assert DoJalr(Cleared(m), raw) == Cleared(DoJalr(m, raw));
  }

  lemma SumsIgnoreBreakpoint(m: Machine, raw: word)
    requires Ok(m) && (Opcode(raw) == 0x13 || Opcode(raw) == 0x1b || Opcode(raw) == 0x33 || Opcode(raw) == 0x3b)
    ensures Dispatch(Cleared(m), raw) == ClearedEffect(Dispatch(m, raw))
  {
  }

  lemma DispatchIgnoresBreakpoint(m: Machine, raw: word)
    requires Ok(m)
    ensures Dispatch(Cleared(m), raw) == ClearedEffect(Dispatch(m, raw))
  {
    match Opcode(raw)
    case 0x03 => LoadsIgnoreBreakpoint(m, raw);
    case 0x23 => LoadsIgnoreBreakpoint(m, raw);
    case 0x67 => JumpsIgnoreBreakpoint(m, raw);
    case 0x6f => JumpsIgnoreBreakpoint(m, raw);
    case 0x13 => SumsIgnoreBreakpoint(m, raw);
    case 0x1b => SumsIgnoreBreakpoint(m, raw);
    case 0x33 => SumsIgnoreBreakpoint(m, raw);
    case 0x3b => SumsIgnoreBreakpoint(m, raw);
    case _ =>
  }

  /** No instruction looks at the breakpoint. */
  lemma ExecIgnoresBreakpoint(m: Machine, raw: word)
    requires Ok(m)
    ensures Exec(Cleared(m), raw) == ClearedEffect(Exec(m, raw))
  {
    var z := m.(x := m.x[0 := 0]);
    assert Cleared(m).(x := Cleared(m).x[0 := 0]) == Cleared(z);
    DispatchIgnoresBreakpoint(z, raw);
  }

  lemma StepIgnoresBreakpoint(m: Machine)
    requires Ok(m)
    ensures StepI(Cleared(m)) == ClearedEffect(StepI(m))
  {
    if m.pc < m.codeSize {
      FetchIsWord(m);
      FetchIsWord(Cleared(m));
      ExecIgnoresBreakpoint(m.(pc := U64(m.pc + 4)), Load(m.mem, m.pc, 4));
    }
  }

  /**
   * A run of the machine with its breakpoint deleted that is not stopped by it is that of a machine that
   * never had one.
   */
  lemma {:induction false} NotStopped(d: Machine, budget: nat)
    requires Deleted(d) && Continue(d, budget).stop != NotRun(AtBreakpoint)
    ensures var e := Continue(d, budget); Continue(Cleared(d), budget) == e.(m := Cleared(e.m))
    decreases budget
  {
    if Why(d).None? && budget > 0 {
      StepIgnoresBreakpoint(d);
      StepKeeps(d);
      if StepI(d).Ran? && StepI(d).ok && !ToHostSet(StepI(d).m) {
        NotStopped(StepI(d).m, budget - 1);
      }
    }
  }

  /** One comes by address 0 exactly when the other does. */
  lemma {:induction false} SameVisits(d: Machine, budget: nat)
    requires Deleted(d)
    ensures Visits(StepI, Why, ToHostSet, d, budget, AtZero)
      <==> Visits(StepI, Why, ToHostSet, Cleared(d), budget, AtZero)
    decreases budget
  {
    VisitsStep(StepI, Why, ToHostSet, d, budget, AtZero);
    VisitsStep(StepI, Why, ToHostSet, Cleared(d), budget, AtZero);
    StepIgnoresBreakpoint(d);
    StepKeeps(d);
    if budget > 0 && !AtZero(d) && Why(d).None? && StepI(d).Ran? {
      SameVisits(StepI(d).m, budget - 1);
    }
  }

  lemma ClearedExact(d: Machine, budget: nat)
    requires Deleted(d)
    ensures var e := Continue(d, budget);
      Continue(Cleared(d), budget) == e.(m := Cleared(e.m))
      <==> !exists n: nat, x: Machine :: n <= budget && ComesByZero(Cleared(d), n, x)
  {
    StopsAtZero(d, budget);
    NeverSetNeverStops(Cleared(d), budget);
    SameVisits(d, budget);
    VisitsZero(d, budget);
    VisitsZero(Cleared(d), budget);
    if Continue(d, budget).stop != NotRun(AtBreakpoint) { NotStopped(d, budget); }
  }

  /**
   * A continue after the deletion runs as if no breakpoint had ever been set exactly when that run
   * never comes to address 0.
   */
  lemma DeletionExact(m: Machine, budget: nat)
    requires Ok(m) && m.bpIsSet
    ensures var d := AfterDeletion(m);
      var e := Continue(d, budget);
      Continue(Cleared(d), budget) == e.(m := Cleared(e.m))
      <==> !exists n: nat, x: Machine :: n <= budget && ComesByZero(Cleared(d), n, x)
  {
    DeletionLeaves(m);
    ClearedExact(AfterDeletion(m), budget);
  }

  lemma VisitsZero(m: Machine, budget: nat)
    ensures Visits(StepI, Why, ToHostSet, m, budget, AtZero)
      <==> exists n: nat, x: Machine :: n <= budget && ComesByZero(m, n, x)
  {
    if n: nat, x: Machine :| n <= budget && ComesByZero(m, n, x) {
      assert GoesOn(StepI, Why, ToHostSet, m, n) && StepMany(StepI, m, n) == Some(x) && AtZero(x);
    }
    if Visits(StepI, Why, ToHostSet, m, budget, AtZero) {
      var n: nat, x: Machine :| n <= budget && GoesOn(StepI, Why, ToHostSet, m, n)
                                && StepMany(StepI, m, n) == Some(x) && AtZero(x);
      assert ComesByZero(m, n, x);
    }
  }

  /** `jal x0, -4` at address 4, bytes 6f f0 df ff: the run is stopped after its first instruction. */
  lemma DeletedStopsLater(m: Machine, budget: nat)
    requires Ok(m) && m.bpIsSet && m.pc == 4 && m.codeSize == 8 && budget > 0
    requires Load(m.mem, 4, 4) == 0xffdf_f06f && !ToHostSet(m)
    ensures var e := Continue(AfterDeletion(m), budget); e.steps == 1 && e.stop == NotRun(AtBreakpoint)
  {
    var d := AfterDeletion(m);
    JumpBack(d);
    var r := StepI(d).m;
    assert Continue(r, budget - 1) == Ended(r, 0, NotRun(AtBreakpoint));
  }

  lemma JumpBack(d: Machine)
    requires Ok(d) && d.pc == 4 && d.codeSize == 8 && Load(d.mem, 4, 4) == 0xffdf_f06f
    ensures var r := StepI(d); r.Ran? && r.ok && r.m.pc == 0 && r.m.mem == d.mem
    ensures StepI(d).m.codeSize == d.codeSize && StepI(d).m.bpAddr == d.bpAddr && |StepI(d).m.x| == 32
  {
    FetchIsWord(d);
    JumpBackFields();
    Jumps(d.(pc := 8).(x := d.x[0 := 0]), 0xffdf_f06f);
  }

  lemma JumpBackFields()
    ensures Opcode(0xffdf_f06f) == 0x6f && Rd(0xffdf_f06f) == 0 && ImmJ(0xffdf_f06f) == -4
  {
  }

  lemma Jumps(m: Machine, raw: word)
    requires Ok(m) && Opcode(raw) == 0x6f
    ensures Dispatch(m, raw) == Ran(SetReg(m, Rd(raw), m.pc).(pc := U64(m.pc + ImmJ(raw) - 4)), true)
  {
  }

  /** With no breakpoint ever set, none stops a continue. */
  lemma {:induction false} NeverSetNeverStops(m: Machine, budget: nat)
    requires Ok(m) && m.bpAddr == NO_BREAKPOINT
    ensures Continue(m, budget).stop != NotRun(AtBreakpoint)
    decreases budget
  {
    if Why(m) == None && budget > 0 && StepI(m).Ran? {
      StepKeeps(m);
      NeverSetNeverStops(StepI(m).m, budget - 1);
    }
  }
}
