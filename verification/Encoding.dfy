/**
 * The instruction formats as sections 2.2 and 2.3 of the RISC-V Unprivileged ISA manual (20191213)
 * lay them out, and the emulator's decoding of each field.
 */
module Encoding {
  import opened Riscv

  predicate IsReg(r: nat) { r < 32 }

  predicate IsOpcode(op: nat) { op < 128 }

  predicate IsFunct3(f: nat) { f < 8 }

  /** Two's complement in `bits` values. */
  function Unsigned(imm: int, range: int): (u: nat)
    requires range > 0 && -range <= 2 * imm < range
    ensures u < range
    ensures imm == if 2 * u < range then u else u - range
  {
    if imm < 0 then imm + range else imm
  }

  /** opcode[6:0] rd[11:7] funct3[14:12] and the upper 17 bits. */
  function Pack(op: nat, rd: nat, f3: nat, upper: nat): (raw: word)
    requires IsOpcode(op) && IsReg(rd) && IsFunct3(f3) && upper < 0x2_0000
  {
    op + 0x80 * (rd + 32 * (f3 + 8 * upper))
  }

  /** Every field of a packed word, and its upper part, come out again. */
  lemma Unpack(op: nat, rd: nat, f3: nat, upper: nat)
    requires IsOpcode(op) && IsReg(rd) && IsFunct3(f3) && upper < 0x2_0000
    ensures var raw := Pack(op, rd, f3, upper);
      Opcode(raw) == op && Rd(raw) == rd && Funct3(raw) == f3 && raw / 0x8000 == upper
      && raw / 0x1000 == f3 + 8 * upper
  {
  }

  lemma Upper(raw: word)
    ensures raw / 0x10_0000 == raw / 0x8000 / 32 && raw / 0x200_0000 == raw / 0x8000 / 1024
    ensures Rs1(raw) == raw / 0x8000 % 32 && Rs2(raw) == raw / 0x8000 / 32 % 32
  {
  }

  // ---------------------------------------------------------------- formats

  /** R: funct7 rs2 rs1 funct3 rd opcode */
  function EncodeR(op: nat, rd: nat, f3: nat, rs1: nat, rs2: nat, f7: nat): word
    requires IsOpcode(op) && IsReg(rd) && IsFunct3(f3) && IsReg(rs1) && IsReg(rs2) && f7 < 128
  {
    Pack(op, rd, f3, rs1 + 32 * (rs2 + 32 * f7))
  }

  lemma DecodeR(op: nat, rd: nat, f3: nat, rs1: nat, rs2: nat, f7: nat)
    requires IsOpcode(op) && IsReg(rd) && IsFunct3(f3) && IsReg(rs1) && IsReg(rs2) && f7 < 128
    ensures var raw := EncodeR(op, rd, f3, rs1, rs2, f7);
      Opcode(raw) == op && Rd(raw) == rd && Funct3(raw) == f3 && Rs1(raw) == rs1 && Rs2(raw) == rs2 && Funct7(raw) == f7
  {
    Unpack(op, rd, f3, rs1 + 32 * (rs2 + 32 * f7));
    Upper(EncodeR(op, rd, f3, rs1, rs2, f7));
  }

  /** I: imm[11:0] rs1 funct3 rd opcode */
  function EncodeI(op: nat, rd: nat, f3: nat, rs1: nat, imm: int): word
    requires IsOpcode(op) && IsReg(rd) && IsFunct3(f3) && IsReg(rs1) && -2048 <= imm < 2048
  {
    Pack(op, rd, f3, rs1 + 32 * Unsigned(imm, 4096))
  }

  lemma DecodeI(op: nat, rd: nat, f3: nat, rs1: nat, imm: int)
    requires IsOpcode(op) && IsReg(rd) && IsFunct3(f3) && IsReg(rs1) && -2048 <= imm < 2048
    ensures var raw := EncodeI(op, rd, f3, rs1, imm);
      Opcode(raw) == op && Rd(raw) == rd && Funct3(raw) == f3 && Rs1(raw) == rs1 && ImmI(raw) == imm
  {
    Unpack(op, rd, f3, rs1 + 32 * Unsigned(imm, 4096));
    Upper(EncodeI(op, rd, f3, rs1, imm));
    UpperI(EncodeI(op, rd, f3, rs1, imm), Unsigned(imm, 4096));
  }

  lemma UpperI(raw: word, u: nat)
    requires raw / 0x10_0000 == u && u < 4096
    ensures ImmI(raw) == if 2 * u < 4096 then u else u - 4096
  {
  }

  /** S: imm[11:5] rs2 rs1 funct3 imm[4:0] opcode */
  function EncodeS(op: nat, f3: nat, rs1: nat, rs2: nat, imm: int): word
    requires IsOpcode(op) && IsFunct3(f3) && IsReg(rs1) && IsReg(rs2) && -2048 <= imm < 2048
  {
    var u := Unsigned(imm, 4096);
    Pack(op, u % 32, f3, rs1 + 32 * (rs2 + 32 * (u / 32)))
  }

  lemma DecodeS(op: nat, f3: nat, rs1: nat, rs2: nat, imm: int)
    requires IsOpcode(op) && IsFunct3(f3) && IsReg(rs1) && IsReg(rs2) && -2048 <= imm < 2048
    ensures var raw := EncodeS(op, f3, rs1, rs2, imm);
      Opcode(raw) == op && Funct3(raw) == f3 && Rs1(raw) == rs1 && Rs2(raw) == rs2 && ImmS(raw) == imm
  {
    var u := Unsigned(imm, 4096);
    Unpack(op, u % 32, f3, rs1 + 32 * (rs2 + 32 * (u / 32)));
    Upper(EncodeS(op, f3, rs1, rs2, imm));
    UpperS(EncodeS(op, f3, rs1, rs2, imm), u / 32, u % 32);
  }

  lemma UpperS(raw: word, high: nat, low: nat)
    requires raw / 0x200_0000 == high && raw / 0x80 % 32 == low && high < 128
    ensures var u := 32 * high + low; ImmS(raw) == if 2 * u < 4096 then u else u - 4096
  {
  }

  /** opcode[6:0] rd[11:7] and the upper 20 bits. */
  function PackUpper(op: nat, rd: nat, upper: nat): (raw: word)
    requires IsOpcode(op) && IsReg(rd) && upper < 0x10_0000
  {
    Pack(op, rd, upper % 8, upper / 8)
  }

  lemma UnpackUpper(op: nat, rd: nat, upper: nat)
    requires IsOpcode(op) && IsReg(rd) && upper < 0x10_0000
    ensures var raw := PackUpper(op, rd, upper); Opcode(raw) == op && Rd(raw) == rd && raw / 0x1000 == upper
  {
    Unpack(op, rd, upper % 8, upper / 8);
  }

  /** U: imm[31:12] rd opcode */
  function EncodeU(op: nat, rd: nat, imm: int): word
    requires IsOpcode(op) && IsReg(rd) && -0x8_0000 <= imm < 0x8_0000
  {
    PackUpper(op, rd, Unsigned(imm, 0x10_0000))
  }

  lemma DecodeU(op: nat, rd: nat, imm: int)
    requires IsOpcode(op) && IsReg(rd) && -0x8_0000 <= imm < 0x8_0000
    ensures var raw := EncodeU(op, rd, imm);
      Opcode(raw) == op && Rd(raw) == rd && ImmU(raw) == 0x1000 * imm
  {
    var u := Unsigned(imm, 0x10_0000);
    UnpackUpper(op, rd, u);
    UpperU(EncodeU(op, rd, imm), u);
  }

  lemma UpperU(raw: word, u: nat)
    requires raw / 0x1000 == u && u < 0x10_0000
    ensures ImmU(raw) == 0x1000 * if 2 * u < 0x10_0000 then u else u - 0x10_0000
  {
  }

  /** Bits 20, 10:1, 11 and 19:12 of an even offset, in this order, as bits 19:0; `u` is half the offset. */
  function ShuffleJ(u: nat): (upper: nat)
    requires u < 0x10_0000
    ensures upper < 0x10_0000
  {
    MixJ(u / 0x8_0000, u % 1024, u / 1024 % 2, u / 2048 % 256)
  }

  function MixJ(b20: nat, b10to1: nat, b11: nat, b19to12: nat): (upper: nat)
    requires b20 < 2 && b10to1 < 1024 && b11 < 2 && b19to12 < 256
    ensures upper < 0x10_0000
  {
    b19to12 + 256 * (b11 + 2 * (b10to1 + 1024 * b20))
  }

  /** J: imm[20|10:1|11|19:12] rd opcode, for even offsets */
  function EncodeJ(op: nat, rd: nat, half: int): word
    requires IsOpcode(op) && IsReg(rd) && -0x8_0000 <= half < 0x8_0000
  {
    PackUpper(op, rd, ShuffleJ(Unsigned(half, 0x10_0000)))
  }

  lemma DecodeJ(op: nat, rd: nat, half: int)
    requires IsOpcode(op) && IsReg(rd) && -0x8_0000 <= half < 0x8_0000
    ensures var raw := EncodeJ(op, rd, half);
      Opcode(raw) == op && Rd(raw) == rd && ImmJ(raw) == 2 * half
  {
    var u := Unsigned(half, 0x10_0000);
    UnpackUpper(op, rd, ShuffleJ(u));
    UpperJ(EncodeJ(op, rd, half), u / 0x8_0000, u % 1024, u / 1024 % 2, u / 2048 % 256);
    Parts(u);
  }

  lemma Parts(u: nat)
    requires u < 0x10_0000
    ensures u == u % 1024 + 1024 * (u / 1024 % 2) + 2048 * (u / 2048 % 256) + 0x8_0000 * (u / 0x8_0000)
    ensures u / 0x8_0000 == if 2 * u < 0x10_0000 then 0 else 1
  {
  }

  lemma UpperJ(raw: word, b20: nat, b10to1: nat, b11: nat, b19to12: nat)
    requires b20 < 2 && b10to1 < 1024 && b11 < 2 && b19to12 < 256
    requires raw / 0x1000 == MixJ(b20, b10to1, b11, b19to12)
    ensures ImmJ(raw) == 2 * b10to1 + 0x800 * b11 + 0x1000 * b19to12 - 0x10_0000 * b20
  {
    ShiftsJ(raw);
    UnmixJ(b20, b10to1, b11, b19to12);
  }

  lemma ShiftsJ(raw: word)
    ensures raw / 0x10_0000 == raw / 0x1000 / 256 && raw / 0x20_0000 == raw / 0x1000 / 512
    ensures raw / 0x8000_0000 == raw / 0x1000 / 0x8_0000
  {
  }

  lemma UnmixJ(b20: nat, b10to1: nat, b11: nat, b19to12: nat)
    requires b20 < 2 && b10to1 < 1024 && b11 < 2 && b19to12 < 256
    ensures var upper := MixJ(b20, b10to1, b11, b19to12);
      && upper % 256 == b19to12 && upper / 256 % 2 == b11 && upper / 512 % 1024 == b10to1
      && upper / 0x8_0000 == b20
  {
  }
}
