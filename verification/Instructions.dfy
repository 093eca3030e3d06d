/**
 * What one step of the emulator (emu/src/emu.c) does for every instruction it has, from the bytes of the
 * instruction in memory to all of the machine afterwards. Fields are encoded as the formats of the manual
 * lay them out; the value computed is stated outright.
 */
module Instructions {
  import opened Bytes
  import opened LittleEndian
  import opened Stepping
  import opened Riscv
  import opened Encoding
  import opened Bits

  /** The instruction at the pc: four bytes of the code, the lowest first. */
  predicate Holds(m: Machine, raw: word)
  {
    && Ok(m) && m.pc < m.codeSize
    && m.mem[m.pc] as int == raw % 0x100 && m.mem[m.pc + 1] as int == raw / 0x100 % 0x100
    && m.mem[m.pc + 2] as int == raw / 0x1_0000 % 0x100 && m.mem[m.pc + 3] as int == raw / 0x100_0000
  }

  /** A register as an instruction reads it. */
  function X(m: Machine, r: nat): int
    requires Ok(m) && r < 32
  {
    if r == 0 then 0 else m.x[r]
  }

  /** The pc behind the instruction, `v` modulo 2^64 in `rd`, x0 cleared before it, and nothing else changed. */
  function Wrote(m: Machine, rd: nat, v: int): Effect
    requires Ok(m) && rd < 32 && m.pc < m.codeSize
  {
    Ran(m.(pc := m.pc + 4, x := m.x[0 := 0][rd := v % W64]), true)
  }

  /** On at `pc` modulo 2^64, with the address behind the instruction in `rd`. */
  function Jumped(m: Machine, rd: nat, pc: int): Effect
    requires Ok(m) && rd < 32 && m.pc < m.codeSize
  {
    Ran(m.(pc := pc % W64, x := m.x[0 := 0][rd := m.pc + 4]), true)
  }

  lemma WordOf(s: seq<byte>, raw: word)
    requires |s| == 4 && s[0] as int == raw % 0x100 && s[1] as int == raw / 0x100 % 0x100
    requires s[2] as int == raw / 0x1_0000 % 0x100 && s[3] as int == raw / 0x100_0000
    ensures FromBytes(s) == raw
  {
    FourBytes(s);
    WordDigits(raw);
  }

  lemma WordDigits(raw: word)
    ensures raw == raw % 0x100 + 0x100 * (raw / 0x100 % 0x100) + 0x1_0000 * (raw / 0x1_0000 % 0x100)
                   + 0x100_0000 * (raw / 0x100_0000)
  {
    var a, b, c := raw / 0x100, raw / 0x1_0000, raw / 0x100_0000;
    assert raw == 0x100 * a + raw % 0x100;
    assert b == a / 0x100 && a == 0x100 * b + a % 0x100;
    assert c == b / 0x100 && b == 0x100 * c + b % 0x100;
  }

  lemma FourBytes(s: seq<byte>)
    requires |s| == 4
    ensures FromBytes(s) == s[0] as int + 0x100 * s[1] as int + 0x1_0000 * s[2] as int + 0x100_0000 * s[3] as int
  {
    var a, b, c := s[1..], s[1..][1..], s[1..][1..][1..];
    assert c == [s[3]] && c[1..] == [];
    assert FromBytes(c) == s[3] as int;
    assert FromBytes(b) == s[2] as int + 0x100 * FromBytes(c);
    assert FromBytes(a) == s[1] as int + 0x100 * FromBytes(b);
  }

  /** The machine in which an instruction is executed. */
  function Started(m: Machine): Machine
    requires Ok(m) && m.pc < m.codeSize
  {
    m.(pc := m.pc + 4, x := m.x[0 := 0])
  }

  /** A step fetches the word at the pc, advances, and executes it. */
  lemma StepFetches(m: Machine, raw: word)
    requires Holds(m, raw)
    ensures StepI(m) == Exec(m.(pc := m.pc + 4), raw) == Dispatch(Started(m), raw)
  {
    FetchIsWord(m);
    WordOf(m.mem[m.pc..m.pc + 4], raw);
    assert U64(m.pc + 4) == m.pc + 4;
  }

  /** Outside the code a step does nothing. */
  lemma StepOutside(m: Machine)
    requires Ok(m) && m.pc >= m.codeSize
    ensures StepI(m) == Ran(m, true)
  {
  }

  lemma StartedReads(m: Machine, r: nat)
    requires Ok(m) && m.pc < m.codeSize && r < 32
    ensures Started(m).x[r] == X(m, r)
  {
  }

  // ---------------------------------------------------------------- arithmetic

  /** add: the sum modulo 2^64. */
  lemma Add(m: Machine, rd: nat, rs1: nat, rs2: nat)
    requires IsReg(rd) && IsReg(rs1) && IsReg(rs2) && Holds(m, EncodeR(0x33, rd, 0, rs1, rs2, 0))
    ensures StepI(m) == Wrote(m, rd, X(m, rs1) + X(m, rs2))
  {
    DecodeR(0x33, rd, 0, rs1, rs2, 0);
    AddWord(m, EncodeR(0x33, rd, 0, rs1, rs2, 0));
  }

  lemma AddWord(m: Machine, raw: word)
    requires Holds(m, raw) && Opcode(raw) == 0x33 && Funct3(raw) == 0 && Funct7(raw) == 0
    ensures StepI(m) == Wrote(m, Rd(raw), X(m, Rs1(raw)) + X(m, Rs2(raw)))
  {
    StepFetches(m, raw);
    AddDispatch(Started(m), raw);
    StartedWrites(m, Rd(raw), X(m, Rs1(raw)) + X(m, Rs2(raw)));
  }

  lemma StartedWrites(m: Machine, rd: nat, v: int)
    requires Ok(m) && m.pc < m.codeSize && rd < 32
    ensures Ran(SetReg(Started(m), rd, v), true) == Wrote(m, rd, v)
  {
  }

  lemma AddDispatch(m: Machine, raw: word)
    requires Ok(m) && Opcode(raw) == 0x33 && Funct3(raw) == 0 && Funct7(raw) == 0
    ensures Dispatch(m, raw) == Ran(SetReg(m, Rd(raw), m.x[Rs1(raw)] as int + m.x[Rs2(raw)]), true)
  {
  }

  /** Bit for bit it is what a ripple-carry adder puts out. */
  lemma AddBits(m: Machine, rd: nat, rs1: nat, rs2: nat, i: nat)
    requires IsReg(rd) && IsReg(rs1) && IsReg(rs2) && Holds(m, EncodeR(0x33, rd, 0, rs1, rs2, 0)) && i < 64
    ensures StepI(m).Ran? && |StepI(m).m.x| == 32 && Bit(StepI(m).m.x[rd], i) == Ripple(X(m, rs1), X(m, rs2), false, i)
  {
    Add(m, rd, rs1, rs2);
    U64Bits(X(m, rs1) + X(m, rs2), i);
    SumRipples(X(m, rs1), X(m, rs2), false, i);
  }

  /** addw: the low 32 bits of the sum, sign-extended. */
  lemma Addw(m: Machine, rd: nat, rs1: nat, rs2: nat)
    requires IsReg(rd) && IsReg(rs1) && IsReg(rs2) && Holds(m, EncodeR(0x3b, rd, 0, rs1, rs2, 0))
    ensures StepI(m) == Wrote(m, rd, Signed32(X(m, rs1) + X(m, rs2)))
  {
    DecodeR(0x3b, rd, 0, rs1, rs2, 0);
    AddwWord(m, EncodeR(0x3b, rd, 0, rs1, rs2, 0));
  }

  lemma AddwWord(m: Machine, raw: word)
    requires Holds(m, raw) && Opcode(raw) == 0x3b && Funct3(raw) == 0 && Funct7(raw) == 0
    ensures StepI(m) == Wrote(m, Rd(raw), Signed32(X(m, Rs1(raw)) + X(m, Rs2(raw))))
  {
    StepFetches(m, raw);
    AddwDispatch(Started(m), raw);
    StartedWrites(m, Rd(raw), Signed32(X(m, Rs1(raw)) + X(m, Rs2(raw))));
  }

  lemma AddwDispatch(m: Machine, raw: word)
    requires Ok(m) && Opcode(raw) == 0x3b && Funct3(raw) == 0 && Funct7(raw) == 0
    ensures Dispatch(m, raw) == Ran(SetReg(m, Rd(raw), Signed32(m.x[Rs1(raw)] as int + m.x[Rs2(raw)])), true)
  {
  }

  /** addi: the sum with the sign-extended immediate. */
  lemma Addi(m: Machine, rd: nat, rs1: nat, imm: int)
    requires IsReg(rd) && IsReg(rs1) && -2048 <= imm < 2048 && Holds(m, EncodeI(0x13, rd, 0, rs1, imm))
    ensures StepI(m) == Wrote(m, rd, X(m, rs1) + imm)
  {
    DecodeI(0x13, rd, 0, rs1, imm);
    AddiWord(m, EncodeI(0x13, rd, 0, rs1, imm));
  }

  lemma AddiWord(m: Machine, raw: word)
    requires Holds(m, raw) && Opcode(raw) == 0x13 && Funct3(raw) == 0
    ensures StepI(m) == Wrote(m, Rd(raw), X(m, Rs1(raw)) + ImmI(raw))
  {
    StepFetches(m, raw);
    AddiDispatch(Started(m), raw);
    StartedWrites(m, Rd(raw), X(m, Rs1(raw)) + ImmI(raw));
  }

  lemma AddiDispatch(m: Machine, raw: word)
    requires Ok(m) && Opcode(raw) == 0x13
    ensures Funct3(raw) == 0 ==> Dispatch(m, raw) == Ran(SetReg(m, Rd(raw), m.x[Rs1(raw)] + ImmI(raw)), true)
    ensures Funct3(raw) == 2 ==>
      Dispatch(m, raw) == Ran(SetReg(m, Rd(raw), if Signed64(m.x[Rs1(raw)]) < ImmI(raw) then 1 else 0), true)
  {
  }

  /** slti: 1 if the register is less than the immediate, both signed, else 0. */
  lemma Slti(m: Machine, rd: nat, rs1: nat, imm: int, x: int)
    requires IsReg(rd) && IsReg(rs1) && -2048 <= imm < 2048 && Holds(m, EncodeI(0x13, rd, 2, rs1, imm))
    requires -0x8000_0000_0000_0000 <= x < 0x8000_0000_0000_0000 && x % W64 == X(m, rs1)
    ensures StepI(m) == Wrote(m, rd, if x < imm then 1 else 0)
  {
    DecodeI(0x13, rd, 2, rs1, imm);
    SltiWord(m, EncodeI(0x13, rd, 2, rs1, imm), x);
  }

  lemma SltiWord(m: Machine, raw: word, x: int)
    requires Holds(m, raw) && Opcode(raw) == 0x13 && Funct3(raw) == 2
    requires -0x8000_0000_0000_0000 <= x < 0x8000_0000_0000_0000 && x % W64 == X(m, Rs1(raw))
    ensures StepI(m) == Wrote(m, Rd(raw), if x < ImmI(raw) then 1 else 0)
  {
    StepFetches(m, raw);
    AddiDispatch(Started(m), raw);
    SignedIs(x, X(m, Rs1(raw)));
    StartedWrites(m, Rd(raw), if x < ImmI(raw) then 1 else 0);
  }

  lemma SignedIs(x: int, v: u64)
    requires -0x8000_0000_0000_0000 <= x < 0x8000_0000_0000_0000 && x % W64 == v
    ensures Signed64(v) == x
  {
    if x < 0 { Quotient(x, W64, -1, x + W64); } else { Quotient(x, W64, 0, x); }
  }

  /** addiw: the low 32 bits of the sum with the immediate, sign-extended. */
  lemma Addiw(m: Machine, rd: nat, rs1: nat, imm: int)
    requires IsReg(rd) && IsReg(rs1) && -2048 <= imm < 2048 && Holds(m, EncodeI(0x1b, rd, 0, rs1, imm))
    ensures StepI(m) == Wrote(m, rd, Signed32(X(m, rs1) + imm))
  {
    DecodeI(0x1b, rd, 0, rs1, imm);
    AddiwWord(m, EncodeI(0x1b, rd, 0, rs1, imm));
  }

  lemma AddiwWord(m: Machine, raw: word)
    requires Holds(m, raw) && Opcode(raw) == 0x1b && Funct3(raw) == 0
    ensures StepI(m) == Wrote(m, Rd(raw), Signed32(X(m, Rs1(raw)) + ImmI(raw)))
  {
    StepFetches(m, raw);
    AddiwDispatch(Started(m), raw);
    StartedWrites(m, Rd(raw), Signed32(X(m, Rs1(raw)) + ImmI(raw)));
  }

  lemma AddiwDispatch(m: Machine, raw: word)
    requires Ok(m) && Opcode(raw) == 0x1b && Funct3(raw) == 0
    ensures Dispatch(m, raw) == Ran(SetReg(m, Rd(raw), Signed32(m.x[Rs1(raw)] + ImmI(raw))), true)
  {
  }

  /** lui: the immediate in bits 31:12, sign-extended. */
  lemma Lui(m: Machine, rd: nat, imm: int)
    requires IsReg(rd) && -0x8_0000 <= imm < 0x8_0000 && Holds(m, EncodeU(0x37, rd, imm))
    ensures StepI(m) == Wrote(m, rd, 0x1000 * imm)
  {
    DecodeU(0x37, rd, imm);
    LuiWord(m, EncodeU(0x37, rd, imm));
  }

  lemma LuiWord(m: Machine, raw: word)
    requires Holds(m, raw) && Opcode(raw) == 0x37
    ensures StepI(m) == Wrote(m, Rd(raw), ImmU(raw))
  {
    StepFetches(m, raw);
    UpperDispatch(Started(m), raw);
    StartedWrites(m, Rd(raw), ImmU(raw));
  }

  lemma AuipcWord(m: Machine, raw: word)
    requires Holds(m, raw) && Opcode(raw) == 0x17
    ensures StepI(m) == Wrote(m, Rd(raw), m.pc + ImmU(raw))
  {
    StepFetches(m, raw);
    UpperDispatch(Started(m), raw);
    StartedWrites(m, Rd(raw), m.pc + ImmU(raw));
  }

  /** auipc: the same, added to the address of the instruction. */
  lemma Auipc(m: Machine, rd: nat, imm: int)
    requires IsReg(rd) && -0x8_0000 <= imm < 0x8_0000 && Holds(m, EncodeU(0x17, rd, imm))
    ensures StepI(m) == Wrote(m, rd, m.pc + 0x1000 * imm)
  {
    DecodeU(0x17, rd, imm);
    AuipcWord(m, EncodeU(0x17, rd, imm));
  }

  lemma UpperDispatch(m: Machine, raw: word)
    requires Ok(m)
    ensures Opcode(raw) == 0x37 ==> Dispatch(m, raw) == Ran(SetReg(m, Rd(raw), ImmU(raw)), true)
    ensures Opcode(raw) == 0x17 ==> Dispatch(m, raw) == Ran(SetReg(m, Rd(raw), m.pc + ImmU(raw) - 4), true)
  {
  }

  // ---------------------------------------------------------------- memory

  /** The address of an access. */
  function Target(m: Machine, rs1: nat, imm: int): u64
    requires Ok(m) && rs1 < 32
  {
    (X(m, rs1) + imm) % W64
  }

  /** A load leaves the `n` bytes at the address, lowest first and zero-extended, in rd; outside memory it is wild. */
  lemma LoadInstr(m: Machine, rd: nat, rs1: nat, imm: int, n: nat)
    requires IsReg(rd) && IsReg(rs1) && -2048 <= imm < 2048 && (n == 4 || n == 8)
    requires Holds(m, EncodeI(0x03, rd, if n == 4 then 2 else 3, rs1, imm))
    ensures var a := Target(m, rs1, imm);
      StepI(m) == if a + n <= MEM_SIZE then Wrote(m, rd, Load(m.mem, a, n)) else Wild
  {
    var f3 := if n == 4 then 2 else 3;
    var raw := EncodeI(0x03, rd, f3, rs1, imm);
    DecodeI(0x03, rd, f3, rs1, imm);
    StepFetches(m, raw);
    DispatchMemory(Started(m), raw, n);
    LoadStarted(m, raw, n, Target(m, rs1, imm));
  }

  lemma LoadStarted(m: Machine, raw: word, n: nat, a: u64)
    requires Ok(m) && m.pc < m.codeSize && a == Target(m, Rs1(raw), ImmI(raw))
    ensures DoLoad(Started(m), raw, n) == if a + n <= MEM_SIZE then Wrote(m, Rd(raw), Load(m.mem, a, n)) else Wild
  {
    StartedReads(m, Rs1(raw));
    if a + n <= MEM_SIZE { StartedWrites(m, Rd(raw), Load(m.mem, a, n)); }
  }

  /** The value loaded, byte by byte. */
  lemma LoadedBytes(mem: seq<byte>, a: nat, n: nat, k: nat)
    requires a + n <= |mem| && k < n
    ensures Load(mem, a, n) / Pow256(k) % 256 == mem[a + k] as int && Load(mem, a, n) < Pow256(n)
  {
    FromBytesBound(mem[a..a + n]);
    ToFromBytes(mem[a..a + n]);
    ToBytesAt(Load(mem, a, n), n, k);
    assert mem[a..a + n][k] == mem[a + k];
  }

  /** A store puts the low `n` bytes of rs2, the lowest first, at the address and changes nothing else. */
  lemma StoreInstr(m: Machine, rs1: nat, rs2: nat, imm: int, n: nat)
    requires IsReg(rs1) && IsReg(rs2) && -2048 <= imm < 2048 && (n == 1 || n == 4 || n == 8)
    requires Holds(m, EncodeS(0x23, if n == 1 then 0 else if n == 4 then 2 else 3, rs1, rs2, imm))
    ensures var a := Target(m, rs1, imm);
      StepI(m) == if a + n <= MEM_SIZE
                  then Ran(m.(pc := m.pc + 4, x := m.x[0 := 0], mem := Store(m.mem, a, n, X(m, rs2))), true) else Wild
  {
    var f3 := if n == 1 then 0 else if n == 4 then 2 else 3;
    var raw := EncodeS(0x23, f3, rs1, rs2, imm);
    DecodeS(0x23, f3, rs1, rs2, imm);
    StepFetches(m, raw);
    StoreDispatch(Started(m), raw, n);
    StoreStarted(m, raw, n, Target(m, rs1, imm));
  }

  lemma StoreDispatch(m: Machine, raw: word, n: nat)
    requires Ok(m) && Opcode(raw) == 0x23 && (n == 1 || n == 4 || n == 8)
    requires Funct3(raw) == if n == 1 then 0 else if n == 4 then 2 else 3
    ensures Dispatch(m, raw) == DoStore(m, raw, n)
  {
  }

  lemma StoreStarted(m: Machine, raw: word, n: nat, a: u64)
    requires Ok(m) && m.pc < m.codeSize && a == Target(m, Rs1(raw), ImmS(raw))
    ensures DoStore(Started(m), raw, n) ==
      if a + n <= MEM_SIZE
      then Ran(m.(pc := m.pc + 4, x := m.x[0 := 0], mem := Store(m.mem, a, n, X(m, Rs2(raw)))), true) else Wild
  {
    StartedReads(m, Rs1(raw));
    StartedReads(m, Rs2(raw));
  }

  /** Memory after a store, byte by byte. */
  lemma StoredBytes(mem: seq<byte>, a: nat, n: nat, v: nat, i: nat)
    requires a + n <= |mem| && i < |mem|
    ensures Store(mem, a, n, v)[i] as int == if a <= i < a + n then v / Pow256(i - a) % 256 else mem[i] as int
  {
    if a <= i < a + n { ToBytesAt(v, n, i - a); }
  }

  // ---------------------------------------------------------------- jumps

  /** jal: on from the instruction's own address plus the offset. */
  lemma Jal(m: Machine, rd: nat, half: int, raw: word)
    requires IsReg(rd) && -0x8_0000 <= half < 0x8_0000 && raw == EncodeJ(0x6f, rd, half) && Holds(m, raw)
    ensures StepI(m) == Jumped(m, rd, m.pc + 2 * half)
  {
    StepFetches(m, raw);
    JalOf(m, 0x6f, rd, half, raw, 2 * half);
  }

  lemma JalOf(m: Machine, op: nat, rd: nat, half: int, raw: word, offset: int)
    requires op == 0x6f && IsReg(rd) && -0x8_0000 <= half < 0x8_0000 && raw == EncodeJ(op, rd, half)
    requires Ok(m) && m.pc < m.codeSize && StepI(m) == Dispatch(Started(m), raw) && offset == 2 * half
    ensures StepI(m) == Jumped(m, rd, m.pc + offset)
  {
    FieldsJ(raw, op, rd, half);
    JalWord(m, raw, rd, offset);
  }

  lemma FieldsJ(raw: word, op: nat, rd: nat, half: int)
    requires IsOpcode(op) && IsReg(rd) && -0x8_0000 <= half < 0x8_0000 && raw == EncodeJ(op, rd, half)
    ensures Opcode(raw) == op && Rd(raw) == rd && ImmJ(raw) == 2 * half
  {
    DecodeJ(op, rd, half);
  }

  lemma JalWord(m: Machine, raw: word, rd: nat, offset: int)
    requires Ok(m) && m.pc < m.codeSize && Opcode(raw) == 0x6f && Rd(raw) == rd && ImmJ(raw) == offset
    ensures Dispatch(Started(m), raw) == Jumped(m, rd, m.pc + offset)
  {
    Jumps(Started(m), raw);
    StartedJumps(m, rd, offset);
  }

  lemma StartedJumps(m: Machine, rd: nat, offset: int)
    requires Ok(m) && m.pc < m.codeSize && rd < 32
    ensures Ran(SetReg(Started(m), rd, m.pc + 4).(pc := U64(m.pc + 4 + offset - 4)), true)
         == Jumped(m, rd, m.pc + offset)
  {
    assert U64(m.pc + 4) == m.pc + 4;
  }

  /** The base of a jalr: the register, unless the link has just been written to it. */
  function Base(m: Machine, rd: nat, rs1: nat): int
    requires Ok(m) && rs1 < 32
  {
    if rd == rs1 then m.pc + 4 else X(m, rs1)
  }

  /** jalr: on at the base plus the immediate, modulo 2^64 and with bit 0 cleared. */
  lemma Jalr(m: Machine, rd: nat, rs1: nat, imm: int)
    requires IsReg(rd) && IsReg(rs1) && -2048 <= imm < 2048 && Holds(m, EncodeI(0x67, rd, 0, rs1, imm))
    ensures StepI(m) == Jumped(m, rd, (Base(m, rd, rs1) + imm) % W64 / 2 * 2)
  {
    DecodeI(0x67, rd, 0, rs1, imm);
    JalrWord(m, EncodeI(0x67, rd, 0, rs1, imm));
  }

  lemma JalrWord(m: Machine, raw: word)
    requires Holds(m, raw) && Opcode(raw) == 0x67
    ensures StepI(m) == Jumped(m, Rd(raw), (Base(m, Rd(raw), Rs1(raw)) + ImmI(raw)) % W64 / 2 * 2)
  {
    StepFetches(m, raw);
    JalrStarted(m, raw, (Base(m, Rd(raw), Rs1(raw)) + ImmI(raw)) % W64);
  }

  lemma JalrStarted(m: Machine, raw: word, t: u64)
    requires Ok(m) && m.pc < m.codeSize && Opcode(raw) == 0x67
    requires t == (Base(m, Rd(raw), Rs1(raw)) + ImmI(raw)) % W64
    ensures Dispatch(Started(m), raw) == Jumped(m, Rd(raw), t / 2 * 2)
  {
    StartedReads(m, Rs1(raw));
    LinkedBase(Started(m), Rd(raw), Rs1(raw));
    EvenTarget(t);
    assert t - t % 2 == t / 2 * 2;
  }

  // ---------------------------------------------------------------- everything else

  /** The instructions there are, by opcode, funct3 and funct7. */
  predicate Implemented(raw: word)
  {
    var op, f3, f7 := raw % 0x80, raw / 0x1000 % 8, raw / 0x200_0000;
    || (op == 0x03 && (f3 == 2 || f3 == 3)) || (op == 0x13 && (f3 == 0 || f3 == 2)) || op == 0x17
    || (op == 0x1b && f3 == 0) || (op == 0x23 && (f3 == 0 || f3 == 2 || f3 == 3)) || op == 0x37
    || ((op == 0x33 || op == 0x3b) && f3 == 0 && f7 == 0) || op == 0x67 || op == 0x6f
  }

  /** Any other word is reported, with the pc advanced and x0 cleared. */
  lemma NotImplemented(m: Machine, raw: word)
    requires Holds(m, raw)
    ensures !Implemented(raw) ==> StepI(m) == Ran(m.(pc := m.pc + 4, x := m.x[0 := 0]), false)
    ensures Implemented(raw) ==> StepI(m).Wild? || StepI(m).ok
  {
    StepFetches(m, raw);
    NotDispatched(Started(m), raw);
  }

  lemma NotDispatched(m: Machine, raw: word)
    requires Ok(m)
    ensures !Implemented(raw) ==> Dispatch(m, raw) == Ran(m, false)
    ensures Implemented(raw) ==> Dispatch(m, raw).Wild? || Dispatch(m, raw).ok
  {
  }
}
