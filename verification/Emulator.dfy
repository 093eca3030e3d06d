/** emu/src/emu.c: the emulator as it runs, instruction by instruction, on its register and memory arrays. */
module Emulator {
  import opened Bytes
  import opened Codec
  import opened LittleEndian
  import opened Stepping
  import opened Riscv
  import opened Protocol

  const EMU_REGS := 33
  const REGSZ := 8

  /** What an opcode function returned is what the instruction's meaning says. */
  ghost predicate Did(o: Effect, m: Machine, ret: int, wild: bool)
  {
    if o.Wild? then wild else !wild && m == o.m && (ret == 0 || ret == -1) && (ret == 0 <==> o.ok)
  }

  lemma LoadDid(m: Machine, raw: word, n: nat, addr: u64)
    requires Ok(m) && addr == Address(m, Rs1(raw), ImmI(raw))
    ensures if InMemory(addr, n) then Did(DoLoad(m, raw, n), SetReg(m, Rd(raw), Load(m.mem, addr, n)), 0, false)
            else Did(DoLoad(m, raw, n), m, -1, true)
  {
  }

  lemma StoreDid(m: Machine, raw: word, n: nat, addr: u64)
    requires Ok(m) && addr == Address(m, Rs1(raw), ImmS(raw))
    ensures if InMemory(addr, n)
            then Did(DoStore(m, raw, n), m.(mem := Store(m.mem, addr, n, m.x[Rs2(raw)])), 0, false)
            else Did(DoStore(m, raw, n), m, -1, true)
  {
  }

  /** `rounds` rounds of the loop of `emu_cont` went from `start` to `cur`. */
  ghost predicate RanSoFar(start: Machine, rounds: nat, cur: Machine)
  {
    GoesOn(StepI, Why, ToHostSet, start, rounds) && StepMany(StepI, start, rounds) == Some(cur)
  }

  /** What one more round means for the whole run. */
  lemma RoundEnds(start: Machine, rounds: nat, haltAfter: nat, cur: Machine, next: Machine, ret: int, wild: bool)
    requires rounds < haltAfter && RanSoFar(start, rounds, cur)
    requires Ok(cur) && cur.pc < cur.codeSize && cur.pc != cur.bpAddr
    requires Ok(next) && Did(Step(cur), next, ret, wild)
    ensures wild ==> Riscv.Continue(start, haltAfter).stop == WildAccess
    ensures !wild && ret < 0 ==> Riscv.Continue(start, haltAfter) == Ended(next, rounds + 1, BadInstruction)
    ensures !wild && ret >= 0 ==>
              if ToHostSet(next) then Riscv.Continue(start, haltAfter) == Ended(next, rounds + 1, ToHost)
              else RanSoFar(start, rounds + 1, next)
  {
    ContinueAfter(StepI, Why, ToHostSet, start, rounds, cur, haltAfter);
    if !wild && ret >= 0 && !ToHostSet(next) {
      GoesOnSnoc(StepI, Why, ToHostSet, start, rounds, cur);
    }
  }

  lemma LoopEnds(start: Machine, rounds: nat, haltAfter: nat, cur: Machine)
    requires rounds <= haltAfter && RanSoFar(start, rounds, cur)
    requires Why(cur).Some? || rounds == haltAfter
    ensures var e := Riscv.Continue(start, haltAfter); e.m == cur && e.stop != WildAccess && e.stop != ToHost
  {
    ContinueAfter(StepI, Why, ToHostSet, start, rounds, cur, haltAfter);
  }

  /** What the bounds test of `emu_read_mem` and `emu_write_mem` lets through: `addr + len` may wrap in a `size_t`. */
  datatype Bounds = InRange | Refused | Outside

  function CheckBounds(addr: u64, len: u64): Bounds
  {
    if (addr + len) % W64 > MEM_SIZE then Refused
    else if addr + len > MEM_SIZE then Outside
    else InRange
  }

  /** The test admits exactly the ranges within memory and, wrongly, those that wrap around to one. */
  lemma BoundsExact(addr: u64, len: u64)
    ensures CheckBounds(addr, len) == InRange <==> addr + len <= MEM_SIZE
    ensures CheckBounds(addr, len) == Outside <==> W64 <= addr + len <= W64 + MEM_SIZE
  {
  }

  /** An input that wraps: 2 bytes from the last address on. */
  lemma BoundsFail()
    ensures CheckBounds(W64 - 1, 2) == Outside
  {
  }

  /** The bytes of register `regno` as the debugger sees them; 32 is the pc. */
  function RegBytes(m: Machine, regno: nat): (s: seq<byte>)
    requires Ok(m) && regno < EMU_REGS
    ensures |s| == REGSZ
  {
    ToBytes(if regno == 32 then m.pc else m.x[regno], REGSZ)
  }

  /** The value eight bytes stand for. */
  function RegValue(data: seq<byte>): u64
    requires |data| == REGSZ
  {
    FromBytesBound(data);
    Pow256Eight();
    FromBytes(data)
  }

  function SetRegBytes(m: Machine, regno: nat, data: seq<byte>): Machine
    requires Ok(m) && regno < EMU_REGS && |data| == REGSZ
  {
    if regno == 32 then m.(pc := RegValue(data)) else m.(x := m.x[regno := RegValue(data)])
  }

  /** Writing a register and reading any one back: the written bytes, or what was there. */
  lemma RegRoundTrip(m: Machine, regno: nat, data: seq<byte>, other: nat)
    requires Ok(m) && regno < EMU_REGS && other < EMU_REGS && |data| == REGSZ
    ensures var w := SetRegBytes(m, regno, data);
      Ok(w) && RegBytes(w, other) == if other == regno then data else RegBytes(m, other)
  {
    ToFromBytes(data);
  }

  class Emu {
    const x: array<u64>
    const mem: array<byte>
    const codeSize: nat
    var pc: u64
    var bpIsSet: bool
    var bpAddr: u64
    var halt: bool
    ghost var m: Machine

    ghost predicate Valid()
      reads this, x, mem
    {
      && x.Length == 32 && mem.Length == MEM_SIZE && codeSize <= TOHOST_ADDR
      && m == Machine(x[..], pc, mem[..], codeSize, bpIsSet, bpAddr)
    }

    /** `emu_init` and `init_mem`: `code` is what was read from the file. */
    constructor (code: seq<byte>)
      requires |code| <= TOHOST_ADDR
      ensures Valid() && fresh(x) && fresh(mem) && halt
      ensures m.pc == 0 && m.codeSize == |code| && !m.bpIsSet && m.bpAddr == NO_BREAKPOINT
      ensures m.x == seq(32, i => if i == 2 then TOHOST_ADDR else 0)
      ensures m.mem == code + seq(MEM_SIZE - |code|, i => 0)
    {
      x := new u64[32](i => if i == 2 then TOHOST_ADDR else 0);
      mem := new byte[MEM_SIZE](i requires 0 <= i => if i < |code| then code[i] else 0);
      codeSize := |code|;
      pc, bpIsSet, bpAddr, halt := 0, false, NO_BREAKPOINT, true;
      new;
      m := Machine(x[..], pc, mem[..], codeSize, bpIsSet, bpAddr);
      assert x[..] == seq(32, i => if i == 2 then TOHOST_ADDR else 0);
      assert mem[..] == code + seq(MEM_SIZE - |code|, i => 0);
    }

    /** emu->x[rd] = v */
    method SetX(rd: nat, v: int)
      requires Valid() && rd < 32
      modifies this`m, x
      ensures Valid() && m == SetReg(old(m), rd, v)
    {
      x[rd] := U64(v);
      m := SetReg(m, rd, v);
    }

    method SetPc(v: u64)
      requires Valid()
      modifies this`m, this`pc
      ensures Valid() && m == old(m).(pc := v)
    {
      pc := v;
      m := m.(pc := v);
    }

    /** lw and ld. */
    method LoadInst(raw: word, bytes: nat) returns (ret: int, wild: bool)
      requires Valid()
      modifies this`m, x
      ensures Valid() && Did(DoLoad(old(m), raw, bytes), m, ret, wild)
    {
      ghost var was := m;
      var ptr := U64(x[Rs1(raw)] + ImmI(raw));
      LoadDid(was, raw, bytes, ptr);
      if ptr + bytes > MEM_SIZE {
        return -1, true;
      }
      var value := ReadLen(mem, ptr, bytes);
      SetX(Rd(raw), value);
      return 0, false;
    }

    /** sb, sw and sd. */
    method StoreInst(raw: word, bytes: nat) returns (ret: int, wild: bool)
      requires Valid()
      modifies this`m, mem
      ensures Valid() && Did(DoStore(old(m), raw, bytes), m, ret, wild)
    {
      ghost var was := m;
      var ptr := U64(x[Rs1(raw)] + ImmS(raw));
      StoreDid(was, raw, bytes, ptr);
      if ptr + bytes > MEM_SIZE {
        return -1, true;
      }
      StoreBytes(ptr, bytes, x[Rs2(raw)]);
      return 0, false;
    }

    method StoreBytes(ptr: nat, bytes: nat, value: u64)
      requires Valid() && ptr + bytes <= MEM_SIZE
      modifies this`m, mem
      ensures Valid() && m == old(m).(mem := Store(old(m).mem, ptr, bytes, value))
    {
      WriteLen(mem, ptr, bytes, value);
      m := m.(mem := mem[..]);
    }

    method Opcode3(raw: word) returns (ret: int, wild: bool)
      requires Valid() && Opcode(raw) == 0x03
      modifies this`m, x
      ensures Valid() && Did(Dispatch(old(m), raw), m, ret, wild)
    {
      if Funct3(raw) == 2 {
        ret, wild := LoadInst(raw, 4);
      } else if Funct3(raw) == 3 {
        ret, wild := LoadInst(raw, 8);
      } else {
        return -1, false;
      }
    }

    method Opcode13(raw: word) returns (ret: int)
      requires Valid() && Opcode(raw) == 0x13
      modifies this`m, x
      ensures Valid() && Did(Dispatch(old(m), raw), m, ret, false)
    {
      if Funct3(raw) == 0 {
        SetX(Rd(raw), x[Rs1(raw)] + ImmI(raw));
      } else if Funct3(raw) == 2 {
        SetX(Rd(raw), if Signed64(x[Rs1(raw)]) < ImmI(raw) then 1 else 0);
      } else {
        return -1;
      }
      return 0;
    }

    method Opcode17(raw: word) returns (ret: int)
      requires Valid() && Opcode(raw) == 0x17
      modifies this`m, x
      ensures Valid() && Did(Dispatch(old(m), raw), m, ret, false)
    {
      SetX(Rd(raw), pc + ImmU(raw) - 4);
      return 0;
    }

    method Opcode1b(raw: word) returns (ret: int)
      requires Valid() && Opcode(raw) == 0x1b
      modifies this`m, x
      ensures Valid() && Did(Dispatch(old(m), raw), m, ret, false)
    {
      if Funct3(raw) != 0 {
        return -1;
      }
      SetX(Rd(raw), Signed32(x[Rs1(raw)] + ImmI(raw)));
      return 0;
    }

    method Opcode23(raw: word) returns (ret: int, wild: bool)
      requires Valid() && Opcode(raw) == 0x23
      modifies this`m, mem
      ensures Valid() && Did(Dispatch(old(m), raw), m, ret, wild)
    {
      if Funct3(raw) == 0 {
        ret, wild := StoreInst(raw, 1);
      } else if Funct3(raw) == 2 {
        ret, wild := StoreInst(raw, 4);
      } else if Funct3(raw) == 3 {
        ret, wild := StoreInst(raw, 8);
      } else {
        return -1, false;
      }
    }

    method Opcode33(raw: word) returns (ret: int)
      requires Valid() && Opcode(raw) == 0x33
      modifies this`m, x
      ensures Valid() && Did(Dispatch(old(m), raw), m, ret, false)
    {
      if Funct3(raw) != 0 || Funct7(raw) != 0 {
        return -1;
      }
      SetX(Rd(raw), x[Rs1(raw)] as int + x[Rs2(raw)] as int);
      return 0;
    }

    method Opcode37(raw: word) returns (ret: int)
      requires Valid() && Opcode(raw) == 0x37
      modifies this`m, x
      ensures Valid() && Did(Dispatch(old(m), raw), m, ret, false)
    {
      SetX(Rd(raw), ImmU(raw));
      return 0;
    }

    method Opcode3b(raw: word) returns (ret: int)
      requires Valid() && Opcode(raw) == 0x3b
      modifies this`m, x
      ensures Valid() && Did(Dispatch(old(m), raw), m, ret, false)
    {
      if Funct3(raw) != 0 || Funct7(raw) != 0 {
        return -1;
      }
      SetX(Rd(raw), Signed32(x[Rs1(raw)] as int + x[Rs2(raw)] as int));
      return 0;
    }

    method Opcode67(raw: word) returns (ret: int)
      requires Valid() && Opcode(raw) == 0x67
      modifies this`m, this`pc, x
      ensures Valid() && Did(Dispatch(old(m), raw), m, ret, false)
    {
      SetX(Rd(raw), pc);
      var target := U64(x[Rs1(raw)] + ImmI(raw));
      SetPc(U64(target - target % 2));
      return 0;
    }

    method Opcode6f(raw: word) returns (ret: int)
      requires Valid() && Opcode(raw) == 0x6f
      modifies this`m, this`pc, x
      ensures Valid() && Did(Dispatch(old(m), raw), m, ret, false)
    {
      SetX(Rd(raw), pc);
      SetPc(U64(pc + ImmJ(raw) - 4));
      return 0;
    }

    /** `emu_exec` */
    method ExecInst(raw: word) returns (ret: int, wild: bool)
      requires Valid()
      modifies this`m, this`pc, x, mem
      ensures Valid() && Did(Exec(old(m), raw), m, ret, wild)
    {
      SetX(0, 0);
      ret, wild := -1, false;
      match Opcode(raw) {
        case 0x03 => ret, wild := Opcode3(raw);
        case 0x13 => ret := Opcode13(raw);
        case 0x17 => ret := Opcode17(raw);
        case 0x1b => ret := Opcode1b(raw);
        case 0x23 => ret, wild := Opcode23(raw);
        case 0x33 => ret := Opcode33(raw);
        case 0x37 => ret := Opcode37(raw);
        case 0x3b => ret := Opcode3b(raw);
        case 0x67 => ret := Opcode67(raw);
        case 0x6f => ret := Opcode6f(raw);
        case _ =>
      }
    }

    /** Fetch, advance and execute. */
    method FetchExec() returns (ret: int, wild: bool)
      requires Valid() && pc < codeSize
      modifies this`m, this`pc, x, mem
      ensures Valid() && Did(Step(old(m)), m, ret, wild)
    {
      FetchIsWord(m);
      var inst := ReadLen(mem, pc, 4);
      SetPc(U64(pc + 4));
      ret, wild := ExecInst(inst);
    }

    /** `emu_stepi` */
    method StepInst() returns (act: Action, wild: bool)
      requires Valid()
      modifies this`m, this`pc, this`halt, x, mem
      ensures Valid() && act == ActResume
      ensures var o := StepI(old(m)); if o.Wild? then wild else !wild && m == o.m
    {
      halt, wild := false, false;
      if pc < codeSize {
        var ret;
        ret, wild := FetchExec();
      }
      return ActResume, wild;
    }

    /**
     * `emu_cont`. Another thread may set the halt flag at any time; `haltAfter` is the number of
     * rounds after which the loop sees it.
     */
    method Cont(haltAfter: nat) returns (act: Action, wild: bool)
      requires Valid()
      modifies this`m, this`pc, this`halt, x, mem
      ensures Valid()
      ensures var e := Riscv.Continue(old(m), haltAfter);
        if e.stop == WildAccess then wild
        else !wild && m == e.m && act == (if e.stop == ToHost then ActShutdown else ActResume)
    {
      halt := false;
      ghost var start := m;
      assert RanSoFar(start, 0, m);
      var rounds := 0;
      while pc < codeSize && pc != bpAddr && rounds < haltAfter
        invariant Valid() && rounds <= haltAfter
        invariant RanSoFar(start, rounds, m)
        decreases haltAfter - rounds
      {
        ghost var cur := m;
        var ret;
        ret, wild := FetchExec();
        RoundEnds(start, rounds, haltAfter, cur, m, ret, wild);
        if wild {
          return ActResume, true;
        }
        if ret < 0 {
          return ActResume, false;
        }
        if mem[TOHOST_ADDR] != 0 {
          return ActShutdown, false;
        }
        rounds := rounds + 1;
      }
      LoopEnds(start, rounds, haltAfter, m);
      return ActResume, false;
    }

    method SetBp(addr: u64, software: bool) returns (ok: bool)
      requires Valid()
      modifies this`m, this`bpIsSet, this`bpAddr
      ensures Valid() && (ok, m) == SetBreakpoint(old(m), addr, software)
    {
      if !software || bpIsSet {
        return false;
      }
      bpIsSet, bpAddr := true, addr;
      m := m.(bpIsSet := true, bpAddr := addr);
      return true;
    }

    method DelBp(addr: u64, software: bool) returns (ok: bool)
      requires Valid()
      modifies this`m, this`bpIsSet, this`bpAddr
      ensures Valid() && (ok, m) == DeleteBreakpoint(old(m), addr, software)
    {
      if !software || !bpIsSet || bpAddr != addr {
        return true;
      }
      bpIsSet, bpAddr := false, 0;
      m := m.(bpIsSet := false, bpAddr := 0);
      return true;
    }

    /** `emu_read_reg`; `wild` when the index lies before the array. */
    method ReadReg(regno: int32) returns (ret: int32, value: seq<byte>, wild: bool)
      requires Valid()
      ensures wild <==> regno < 0
      ensures !wild ==> if regno < EMU_REGS then ret == 0 && value == RegBytes(m, regno) else ret == EFAULT
    {
      if regno > 32 {
        return EFAULT, [], false;
      }
      if regno < 0 {
        return 0, [], true;
      }
      var v := if regno == 32 then pc else x[regno];
      return 0, ToBytes(v, REGSZ), false;
    }

    /** `emu_write_reg` */
    method WriteReg(regno: int32, data: seq<byte>) returns (ret: int32, wild: bool)
      requires Valid() && |data| == REGSZ
      modifies this`m, this`pc, x
      ensures Valid() && (wild <==> regno < 0)
      ensures !wild ==> if regno < EMU_REGS then ret == 0 && m == SetRegBytes(old(m), regno, data)
                        else ret == EFAULT && m == old(m)
    {
      if regno > 32 {
        return EFAULT, false;
      }
      if regno < 0 {
        return 0, true;
      }
      if regno == 32 {
        SetPc(RegValue(data));
      } else {
        x[regno] := RegValue(data);
        m := m.(x := m.x[regno := RegValue(data)]);
      }
      return 0, false;
    }

    /** `emu_read_mem`; `wild` when the copy would leave memory. */
    method ReadMem(addr: u64, len: u64) returns (ret: int32, val: seq<byte>, wild: bool)
      requires Valid()
      ensures match CheckBounds(addr, len)
        case Refused => ret == EFAULT && !wild
        case Outside => wild
        case InRange => ret == 0 && !wild && val == m.mem[addr..addr + len]
    {
      if (addr + len) % W64 > MEM_SIZE {
        return EFAULT, [], false;
      }
      if addr + len > MEM_SIZE {
        return 0, [], true;
      }
      return 0, mem[addr..addr + len], false;
    }

    /** `emu_write_mem` */
    method WriteMem(addr: u64, val: seq<byte>) returns (ret: int32, wild: bool)
      requires Valid() && |val| < W64
      modifies this`m, mem
      ensures Valid()
      ensures match CheckBounds(addr, |val|)
        case Refused => ret == EFAULT && !wild && m == old(m)
        case Outside => wild
        case InRange => ret == 0 && !wild && m == old(m).(mem := Splice(old(m).mem, addr, val))
    {
      if (addr + |val|) % W64 > MEM_SIZE {
        return EFAULT, false;
      }
      if addr + |val| > MEM_SIZE {
        return 0, true;
      }
      forall i | 0 <= i < |val| {
        mem[addr + i] := val[i];
      }
      m := m.(mem := Splice(m.mem, addr, val));
      return 0, false;
    }
  }
}
