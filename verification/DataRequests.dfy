/**
 * The requests of src/gdbstub.c that carry data, for every packet of a session with the emulator as the
 * target: memory, registers and queries, with replies and values stated digit by digit and byte by byte.
 */
module DataRequests {
  import opened Bytes
  import opened Codec
  import opened LittleEndian
  import opened Connection
  import opened Protocol
  import opened Riscv
  import opened Emulator
  import opened MemoryCommands
  import opened Session
  import opened Requests
  import L = MainLoop
  import R = Registers
  import RR = RegisterRead
  import X = Xfer

  lemma FaultText()
    ensures ErrorText(EFAULT) == Ascii("E14")
  {
    assert Decimal(1) == [0x31];
    assert Decimal(14) == [0x31, 0x34];
    assert Ascii("E") + [] + [0x31, 0x34] == Ascii("E14");
  }

  lemma ShortTexts()
    ensures Sendable(Ascii("OK")) && Sendable(Ascii("E14"))
  {
  }

  /** The range is in memory. */
  predicate Fits(env: Env)
  {
    env.addr + env.len <= 0x1000
  }

  /** The bounds test of the emulator refuses the range: its end, modulo 2^64, lies behind memory. */
  predicate Refuses(env: Env)
  {
    (env.addr + env.len) % W64 > 0x1000
  }

  lemma BoundsMean(env: Env)
    ensures CheckBounds(env.addr, env.len) ==
      if Refuses(env) then Refused else if Fits(env) then InRange else Outside
    ensures Fits(env) ==> !Refuses(env)
  {
  }

  // ---------------------------------------------------------------- m

  lemma ReadAnswer(cfg: Config, m: Machine, p: Arrival)
    requires Riscv.Ok(m) && L.Request(p.frame) == 'm' as byte && cfg.ops.readMem
    ensures Forms(L.Request(p.frame)) && Present(cfg.ops, L.Request(p.frame))
    ensures AnswerTo(cfg, m, p)
         == Answering(if p.env.parsed then MemText(MemRead(m.mem, p.env.addr, p.env.len)) else None, m)
  {
  }

  /** `m`: the bytes in hex if the range is in memory and they fit a packet; E14 if it is refused. */
  lemma ReadRequest(cfg: Config, s: State, p: Arrival)
    requires Ready(s) && Asks(p, 'm') && cfg.ops.readMem
    ensures ServeNext(cfg, s, p) ==
      if p.env.parsed && Fits(p.env) && 2 * p.env.len + 5 < 0x1000
      then Replies(s, HexEncode(s.m.mem[p.env.addr..p.env.addr + p.env.len]), s.m)
      else if p.env.parsed && Refuses(p.env) then Replies(s, Ascii("E14"), s.m)
      else Fails(s)
  {
    TextOf(p, 'm');
    ReadAnswer(cfg, s.m, p);
    ReadText(s.m.mem, p.env);
    FormsServed(cfg, s, p, AnswerTo(cfg, s.m, p));
    ShortTexts();
  }

  lemma ReadText(mem: seq<byte>, env: Env)
    requires |mem| == MEM_SIZE
    ensures MemText(MemRead(mem, env.addr, env.len)) ==
      if Fits(env) && 2 * env.len + 5 < 0x1000 then Some(HexEncode(mem[env.addr..env.addr + env.len]))
      else if Refuses(env) then Some(Ascii("E14")) else None
  {
    BoundsMean(env);
    FaultText();
  }

  // ---------------------------------------------------------------- M

  /** Memory with `n` bytes decoded from pairs of characters at `a`, and the rest as it was. */
  function HexWritten(mem: seq<byte>, a: nat, n: nat, text: seq<byte>): (r: seq<byte>)
    requires |text| == 2 * n
  {
    seq(|mem|, i requires 0 <= i < |mem| =>
      if a <= i < a + n then 16 * CharToHex(text[2 * (i - a)]) + CharToHex(text[2 * (i - a) + 1]) else mem[i])
  }

  /** `M` with an address, a colon and two characters for each byte. */
  lemma WriteRequest(cfg: Config, s: State, p: Arrival, header: seq<byte>, text: seq<byte>)
    requires Ready(s) && Asks(p, 'M') && cfg.ops.writeMem && p.env.parsed
    requires Separated(Body(p), COLON, header) && text == Body(p)[|header| + 1..] && |text| == 2 * p.env.len
    ensures ServeNext(cfg, s, p) ==
      if Fits(p.env)
      then Replies(s, Ascii("OK"), s.m.(mem := HexWritten(s.m.mem, p.env.addr, p.env.len, text)))
      else if Refuses(p.env) then Replies(s, Ascii("E14"), s.m)
      else Fails(s)
  {
    TextOf(p, 'M');
    ContentIs(p, header, text);
    WriteAnswer(cfg, s.m, p);
    WriteText(s.m.mem, p.env, text, p.frame[|p.frame| - 2..]);
    FormsServed(cfg, s, p, AnswerTo(cfg, s.m, p));
    ShortTexts();
  }

  lemma WriteAnswer(cfg: Config, m: Machine, p: Arrival)
    requires Riscv.Ok(m) && L.Request(p.frame) == 'M' as byte && cfg.ops.writeMem && p.env.parsed
    ensures Forms(L.Request(p.frame)) && Present(cfg.ops, L.Request(p.frame))
    ensures AnswerTo(cfg, m, p) == MemAnswer(m, MemWrite(m.mem, p.env.addr, p.env.len, Content(p.frame)))
  {
  }

  lemma ContentIs(p: Arrival, header: seq<byte>, text: seq<byte>)
    requires |p.frame| > 4 && Separated(Body(p), COLON, header) && text == Body(p)[|header| + 1..]
    ensures Content(p.frame) == Some(Behind(text, p.frame[|p.frame| - 2..]))
  {
    ColonFound(Body(p), header);
  }

  lemma ColonFound(body: seq<byte>, header: seq<byte>)
    requires Separated(body, COLON, header)
    ensures ColonAt(body) == Some(|header|)
  {
    FirstIn(body, COLON, header);
    FirstIn(body, 0, header);
    NotAt(body, 0, |header|);
  }

  lemma WriteText(mem: seq<byte>, env: Env, text: seq<byte>, digits: seq<byte>)
    requires |mem| == MEM_SIZE && |text| == 2 * env.len
    ensures var (reply, after) := MemWrite(mem, env.addr, env.len, Some(Behind(text, digits)));
      if Fits(env) then MemText(reply) == Some(Ascii("OK")) && after == HexWritten(mem, env.addr, env.len, text)
      else after == mem && MemText(reply) == if Refuses(env) then Some(Ascii("E14")) else None
  {
    BoundsMean(env);
    FaultText();
    IntBound(env.len);
    MemWriteExact(mem, env.addr, env.len, Some(Behind(text, digits)));
    if Fits(env) {
      DecodedOf(text, digits, env.len);
      SplicedHex(mem, env.addr, env.len, text);
    }
  }

  lemma IntBound(len: u64)
    ensures Int32(len) <= len
  {
  }

  lemma SplicedHex(mem: seq<byte>, a: nat, n: nat, text: seq<byte>)
    requires |text| == 2 * n && a + n <= |mem|
    ensures Splice(mem, a, HexDecode(text, n)) == HexWritten(mem, a, n, text)
  {
  }

  // ---------------------------------------------------------------- X

  /** Memory with the bytes `val` at `a`, and the rest as it was. */
  function BytesWritten(mem: seq<byte>, a: nat, val: seq<byte>): (r: seq<byte>)
  {
    seq(|mem|, i requires 0 <= i < |mem| => if a <= i < a + |val| then val[i - a] else mem[i])
  }

  /** `X` with an address, a colon and the bytes in any legal encoding; a range that is refused is answered OK too. */
  lemma XRequest(cfg: Config, s: State, p: Arrival, header: seq<byte>, val: seq<byte>)
    requires Ready(s) && Asks(p, 'X') && cfg.ops.writeMem && p.env.parsed && p.env.len < 0x8000_0000
    requires Separated(Body(p), COLON, header) && Encodes(Body(p)[|header| + 1..], val) && |val| == p.env.len
    ensures ServeNext(cfg, s, p) ==
      if Fits(p.env) then Replies(s, Ascii("OK"), s.m.(mem := BytesWritten(s.m.mem, p.env.addr, val)))
      else if Refuses(p.env) then Replies(s, Ascii("OK"), s.m)
      else Fails(s)
  {
    XBody(p, Body(p)[|header| + 1..], header, val);
    XServed(cfg, s, p, val);
  }

  lemma XBody(p: Arrival, e: seq<byte>, header: seq<byte>, val: seq<byte>)
    requires |p.frame| > 4 && Separated(Body(p), COLON, header) && e == Body(p)[|header| + 1..] && Encodes(e, val)
    ensures XContent(Payload(p.frame)) == Some(val)
  {
    ColonFound(Body(p), header);
    UnescapeEncoded(e, val, 0);
  }

  lemma XServed(cfg: Config, s: State, p: Arrival, val: seq<byte>)
    requires Ready(s) && Asks(p, 'X') && cfg.ops.writeMem && p.env.parsed && p.env.len < 0x8000_0000
    requires XContent(Payload(p.frame)) == Some(val) && |val| == p.env.len
    ensures ServeNext(cfg, s, p) ==
      if Fits(p.env) then Replies(s, Ascii("OK"), s.m.(mem := BytesWritten(s.m.mem, p.env.addr, val)))
      else if Refuses(p.env) then Replies(s, Ascii("OK"), s.m)
      else Fails(s)
  {
    TextOf(p, 'X');
    XAnswer(cfg, s.m, p);
    XText(s.m.mem, Payload(p.frame), p.env, val);
    FormsServed(cfg, s, p, AnswerTo(cfg, s.m, p));
    ShortTexts();
  }

  lemma XAnswer(cfg: Config, m: Machine, p: Arrival)
    requires Riscv.Ok(m) && L.Request(p.frame) == 'X' as byte && cfg.ops.writeMem && p.env.parsed
    ensures Forms(L.Request(p.frame)) && Present(cfg.ops, L.Request(p.frame))
    ensures AnswerTo(cfg, m, p) == MemAnswer(m, XWrite(m.mem, Payload(p.frame), p.env.addr, p.env.len))
  {
  }

  lemma XText(mem: seq<byte>, body: seq<byte>, env: Env, val: seq<byte>)
    requires |mem| == MEM_SIZE && env.len < 0x8000_0000 && |val| == env.len && XContent(body) == Some(val)
    ensures var (reply, after) := XWrite(mem, body, env.addr, env.len);
      if Fits(env) then MemText(reply) == Some(Ascii("OK")) && after == BytesWritten(mem, env.addr, val)
      else after == mem && MemText(reply) == if Refuses(env) then Some(Ascii("OK")) else None
  {
    BoundsMean(env);
    if Fits(env) { SplicedBytes(mem, env.addr, val); }
  }

  lemma SplicedBytes(mem: seq<byte>, a: nat, val: seq<byte>)
    requires a + |val| <= |mem|
    ensures Splice(mem, a, val) == BytesWritten(mem, a, val)
  {
  }

  // ---------------------------------------------------------------- p and P

  /** Register 32 is the pc, the others are the emulator's in order. */
  function RegNum(m: Machine, i: nat): u64
    requires Riscv.Ok(m) && i < 33
  {
    if i == 32 then m.pc else m.x[i]
  }

  /** The bytes of a number, the lowest first. */
  predicate IsLittleEndian(val: seq<byte>, v: u64)
  {
    |val| == 8 && forall k :: 0 <= k < 8 ==> val[k] as int == v / Pow256(k) % 256
  }

  lemma LittleEndianIs(val: seq<byte>, v: u64)
    requires IsLittleEndian(val, v)
    ensures ToBytes(v, 8) == val && FromBytes(val) == v
  {
    DigitsAre(val, v, 8);
    WholeNumber(v, 8);
  }

  lemma DigitsAre(val: seq<byte>, v: nat, n: nat)
    requires |val| == n && forall k :: 0 <= k < n ==> val[k] as int == v / Pow256(k) % 256
    ensures ToBytes(v, n) == val
  {
    forall k | 0 <= k < n ensures ToBytes(v, n)[k] == val[k] {
      ToBytesAt(v, n, k);
    }
  }

  lemma WholeNumber(v: u64, n: nat)
    requires n == 8
    ensures FromBytes(ToBytes(v, n)) == v
  {
    Pow256Eight();
    FromToBytes(v, n);
  }

  lemma ReadOneAnswer(cfg: Config, m: Machine, p: Arrival)
    requires Riscv.Ok(m) && L.Request(p.frame) == 'p' as byte && cfg.ops.readReg
    ensures Forms(L.Request(p.frame)) && Present(cfg.ops, L.Request(p.frame))
    ensures AnswerTo(cfg, m, p) == Answering(ReadOne(m, p.env), m)
  {
  }

  /** `p`: the register's eight bytes in hex, E14 behind the last register; a negative number fails. */
  lemma RegisterRequest(cfg: Config, s: State, p: Arrival, val: seq<byte>)
    requires Ready(s) && Asks(p, 'p') && cfg.ops.readReg
    requires 0 <= p.env.regno <= 32 ==> IsLittleEndian(val, RegNum(s.m, p.env.regno))
    ensures ServeNext(cfg, s, p) ==
      if !p.env.parsed || p.env.regno < 0 then Fails(s)
      else if p.env.regno <= 32 then Replies(s, HexEncode(val), s.m)
      else Replies(s, Ascii("E14"), s.m)
  {
    TextOf(p, 'p');
    ReadOneAnswer(cfg, s.m, p);
    FaultText();
    if 0 <= p.env.regno <= 32 { LittleEndianIs(val, RegNum(s.m, p.env.regno)); }
    FormsServed(cfg, s, p, AnswerTo(cfg, s.m, p));
    ShortTexts();
  }

  /** Two characters for each byte of a number, the lowest byte first. */
  predicate Spells(text: seq<byte>, v: u64)
  {
    |text| == 16 && forall k :: 0 <= k < 8 ==>
      v / Pow256(k) % 256 == 16 * CharToHex(text[2 * k]) as int + CharToHex(text[2 * k + 1]) as int
  }

  lemma SpellsIs(text: seq<byte>, v: u64)
    requires Spells(text, v)
    ensures IsLittleEndian(HexDecode(text, 8), v)
  {
    forall k | 0 <= k < 8 ensures HexDecode(text, 8)[k] as int == v / Pow256(k) % 256 {
      assert HexDecode(text, 8)[k] == DecodePair(text[2 * k], text[2 * k + 1]);
    }
  }

  function WithReg(m: Machine, i: nat, v: u64): Machine
    requires Riscv.Ok(m) && i < 33
  {
    if i == 32 then m.(pc := v) else m.(x := m.x[i := v])
  }

  /** `P`: the number behind the '=' goes to the register. */
  lemma SetRegisterRequest(cfg: Config, s: State, p: Arrival, name: seq<byte>, text: seq<byte>, v: u64)
    requires Ready(s) && Asks(p, 'P') && cfg.ops.writeReg
    requires Separated(Body(p), EQUALS, name) && text == CStr(Body(p)[|name| + 1..]) && Spells(text, v)
    ensures ServeNext(cfg, s, p) ==
      if !p.env.parsed || p.env.regno < 0 then Fails(s)
      else if p.env.regno <= 32 then Replies(s, Ascii("OK"), WithReg(s.m, p.env.regno, v))
      else Replies(s, Ascii("E14"), s.m)
  {
    TextOf(p, 'P');
    RestIs(Body(p), EQUALS, name);
    WriteOneAnswer(cfg, s.m, p);
    WriteOneIs(s.m, CStr(Body(p)), p.env, text, v);
    FormsServed(cfg, s, p, AnswerTo(cfg, s.m, p));
    ShortTexts();
  }

  /** A `P` without '=' or with another number of digits fails. */
  lemma BadRegisterRequest(cfg: Config, s: State, p: Arrival)
    requires Ready(s) && Asks(p, 'P') && cfg.ops.writeReg
    requires EQUALS !in CStr(Body(p))
             || exists name :: Separated(Body(p), EQUALS, name) && |CStr(Body(p)[|name| + 1..])| != 16
    ensures ServeNext(cfg, s, p) == Fails(s)
  {
    TextOf(p, 'P');
    WriteOneAnswer(cfg, s.m, p);
    if EQUALS in CStr(Body(p)) {
      var name :| Separated(Body(p), EQUALS, name) && |CStr(Body(p)[|name| + 1..])| != 16;
      RestIs(Body(p), EQUALS, name);
    }
    FormsServed(cfg, s, p, AnswerTo(cfg, s.m, p));
  }

  lemma WriteOneAnswer(cfg: Config, m: Machine, p: Arrival)
    requires Riscv.Ok(m) && L.Request(p.frame) == 'P' as byte && cfg.ops.writeReg
    ensures Forms(L.Request(p.frame)) && Present(cfg.ops, L.Request(p.frame))
    ensures AnswerTo(cfg, m, p) == WriteOne(m, L.Arguments(p.frame), p.env)
  {
  }

  lemma RestIs(body: seq<byte>, sep: byte, name: seq<byte>)
    requires Separated(body, sep, name) && sep != 0
    ensures Rest(CStr(body), sep) == Some(CStr(body[|name| + 1..]))
  {
    NameFound(body, sep, name);
    FirstIn(CStr(body), sep, name);
    StringBehind(body, |name| + 1);
  }

  /** A string that goes on behind its first `k` characters. */
  lemma {:induction false} StringBehind(body: seq<byte>, k: nat)
    requires k <= |CStr(body)|
    ensures CStr(body)[k..] == CStr(body[k..])
    decreases k
  {
    if k > 0 {
      assert body[0] == CStr(body)[0] && CStr(body) == [body[0]] + CStr(body[1..]);
      assert CStr(body)[1..] == CStr(body[1..]);
      StringBehind(body[1..], k - 1);
      assert body[1..][k - 1..] == body[k..] && CStr(body)[1..][k - 1..] == CStr(body)[k..];
    }
  }

  lemma WriteOneIs(m: Machine, args: seq<byte>, env: Env, text: seq<byte>, v: u64)
    requires Riscv.Ok(m) && Rest(args, EQUALS) == Some(text) && Spells(text, v)
    ensures WriteOne(m, args, env) ==
      if !env.parsed || env.regno < 0 then Answering(None, m)
      else if env.regno <= 32 then Answering(Some(Ascii("OK")), WithReg(m, env.regno, v))
      else Answering(Some(Ascii("E14")), m)
  {
    SpellsIs(text, v);
    LittleEndianIs(HexDecode(text, 8), v);
    FaultText();
  }

  // ---------------------------------------------------------------- g and G

  lemma {:induction false} FlattenAt(regs: seq<seq<byte>>, n: nat, i: nat, k: nat)
    requires n <= |regs| && i < n && k < 8 && forall j :: 0 <= j < n ==> |regs[j]| == 8
    ensures |R.Flatten(regs, n)| == 8 * n && R.Flatten(regs, n)[8 * i + k] == regs[i][k]
    decreases n
  {
    if n == 1 {
      assert R.Flatten(regs, 0) == [];
    } else if i < n - 1 {
      FlattenAt(regs, n - 1, i, k);
    } else {
      FlattenAt(regs, n - 1, 0, 0);
    }
  }

  lemma AllRegsAnswer(cfg: Config, m: Machine, p: Arrival)
    requires Riscv.Ok(m) && L.Request(p.frame) == 'g' as byte && cfg.ops.readReg
    ensures Forms(L.Request(p.frame)) && Present(cfg.ops, L.Request(p.frame))
    ensures AnswerTo(cfg, m, p) == Answering(Some(HexEncode(R.Flatten(RegsOf(m), EMU_REGS))), m)
  {
  }

  lemma FlattenIs(m: Machine, val: seq<byte>)
    requires Riscv.Ok(m) && |val| == 264
    requires forall i :: 0 <= i < 33 ==> IsLittleEndian(val[8 * i..8 * i + 8], RegNum(m, i))
    ensures R.Flatten(RegsOf(m), EMU_REGS) == val
  {
    var all := R.Flatten(RegsOf(m), EMU_REGS);
    FlattenAt(RegsOf(m), 33, 0, 0);
    forall j | 0 <= j < 264 ensures all[j] == val[j] {
      PartOf(val, j / 8, j % 8);
      FlattenRegister(m, val[8 * (j / 8)..8 * (j / 8) + 8], j / 8, j % 8, j);
    }
  }

  lemma PartOf(val: seq<byte>, i: nat, k: nat)
    requires 8 * i + 8 <= |val| && k < 8
    ensures val[8 * i..8 * i + 8][k] == val[8 * i + k]
  {
  }

  lemma FlattenRegister(m: Machine, part: seq<byte>, i: nat, k: nat, j: nat)
    requires Riscv.Ok(m) && i < 33 && k < 8 && j == 8 * i + k && IsLittleEndian(part, RegNum(m, i))
    ensures |R.Flatten(RegsOf(m), EMU_REGS)| == 264 && R.Flatten(RegsOf(m), EMU_REGS)[j] == part[k]
  {
    FlattenAt(RegsOf(m), 33, i, k);
    LittleEndianIs(part, RegNum(m, i));
  }

  /** `g`: all 33 registers, eight bytes each, in order. */
  lemma RegistersRequest(cfg: Config, s: State, p: Arrival, val: seq<byte>)
    requires Ready(s) && Asks(p, 'g') && cfg.ops.readReg && |val| == 264
    requires forall i :: 0 <= i < 33 ==> IsLittleEndian(val[8 * i..8 * i + 8], RegNum(s.m, i))
    ensures ServeNext(cfg, s, p) == Replies(s, HexEncode(val), s.m)
  {
    TextOf(p, 'g');
    AllRegsAnswer(cfg, s.m, p);
    FlattenIs(s.m, val);
    FormsServed(cfg, s, p, AnswerTo(cfg, s.m, p));
  }

  // ---------------------------------------------------------------- G

  /** The machine with these 33 register values. */
  function WithAll(m: Machine, vs: seq<u64>): Machine
    requires Riscv.Ok(m) && |vs| == 33
  {
    m.(x := vs[..32], pc := vs[32])
  }

  /** The first `n` registers new. */
  function WithSome(m: Machine, vs: seq<u64>, n: nat): (r: Machine)
    requires Riscv.Ok(m) && |vs| == 33 && n <= 33
    ensures Riscv.Ok(r)
  {
    m.(x := vs[..if n < 32 then n else 32] + m.x[if n < 32 then n else 32..], pc := if n == 33 then vs[32] else m.pc)
  }

  lemma {:induction false} WithRegsIs(m: Machine, regs: seq<seq<byte>>, vs: seq<u64>, n: nat)
    requires Riscv.Ok(m) && R.WellSized(EmuWidths(), regs) && |vs| == 33 && n <= 33
    requires forall i :: 0 <= i < 33 ==> |regs[i]| == 8 && RegValue(regs[i]) == vs[i]
    ensures WithRegs(m, regs, n) == WithSome(m, vs, n)
    decreases n
  {
    if n == 0 {
      assert vs[..0] + m.x[0..] == m.x;
    } else {
      WithRegsIs(m, regs, vs, n - 1);
      OneMoreReg(m, vs, n - 1);
    }
  }

  lemma OneMoreReg(m: Machine, vs: seq<u64>, i: nat)
    requires Riscv.Ok(m) && |vs| == 33 && i < 33
    ensures WithReg(WithSome(m, vs, i), i, vs[i]) == WithSome(m, vs, i + 1)
  {
  }

  /** The text of `G` spells register after register. */
  predicate SpellsAll(text: seq<byte>, vs: seq<u64>)
  {
    |text| == 528 && |vs| == 33 && forall i :: 0 <= i < 33 ==> Spells(text[16 * i..16 * i + 16], vs[i])
  }

  lemma AllWritesAnswer(cfg: Config, m: Machine, p: Arrival)
    requires Riscv.Ok(m) && L.Request(p.frame) == 'G' as byte && cfg.ops.writeReg
    ensures Forms(L.Request(p.frame)) && Present(cfg.ops, L.Request(p.frame))
    ensures AnswerTo(cfg, m, p) == WriteRegs(m, L.Arguments(p.frame), p.env)
  {
  }

  lemma ParsedIs(text: seq<byte>, vs: seq<u64>, i: nat)
    requires SpellsAll(text, vs) && i < 33 && |text| == 2 * R.TotalBytes(EmuWidths())
    ensures var parsed := R.Parsed(EmuWidths(), text, EMU_REGS);
      |parsed[i]| == 8 && RegValue(parsed[i]) == vs[i]
  {
    R.ParsedAt(EmuWidths(), text, EMU_REGS, i);
    ParsedPart(text, i, text[16 * i..16 * i + 16]);
    PartValue(text[16 * i..16 * i + 16], vs[i]);
  }

  lemma ParsedPart(text: seq<byte>, i: nat, part: seq<byte>)
    requires |text| == 528 == 2 * R.TotalBytes(EmuWidths()) && i < 33 && part == text[16 * i..16 * i + 16]
    ensures R.ParsedReg(EmuWidths(), text, i) == HexDecode(part, 8)
  {
    R.UniformPrefix(EmuWidths(), i);
  }

  lemma PartValue(part: seq<byte>, v: u64)
    requires Spells(part, v)
    ensures RegValue(HexDecode(part, 8)) == v
  {
    SpellsIs(part, v);
    LittleEndianIs(HexDecode(part, 8), v);
  }

  lemma AllWritten(m: Machine, text: seq<byte>, env: Env, vs: seq<u64>)
    requires Riscv.Ok(m) && SpellsAll(text, vs) && env.hasMemory
    ensures WriteRegs(m, text, env) == Answering(Some(Ascii("OK")), WithAll(m, vs))
  {
    EmuLayout();
    NoFailures(0, EMU_REGS);
    NoFailures(EMU_REGS, EMU_REGS);
    var parsed := R.Parsed(EmuWidths(), text, EMU_REGS);
    RR.ParsedWellSized(EmuWidths(), text);
    forall i | 0 <= i < 33 ensures |parsed[i]| == 8 && RegValue(parsed[i]) == vs[i] {
      ParsedIs(text, vs, i);
    }
    WithRegsIs(m, parsed, vs, 33);
    assert vs[..32] + m.x[32..] == vs[..32];
  }

  lemma NothingWritten(m: Machine, text: seq<byte>, env: Env)
    requires Riscv.Ok(m) && (|text| != 528 || !env.hasMemory)
    ensures WriteRegs(m, text, env) == Answering(Some(if |text| != 528 then Ascii("E22") else Ascii("E12")), m)
  {
    EmuLayout();
    SameRegs(m, EMU_REGS);
  }

  /** `G`: all 33 registers from 528 digits; E22 for any other length, E12 without memory, and then nothing changes. */
  lemma SetRegistersRequest(cfg: Config, s: State, p: Arrival, vs: seq<u64>)
    requires Ready(s) && Asks(p, 'G') && cfg.ops.writeReg
    requires |CStr(Body(p))| == 528 ==> SpellsAll(CStr(Body(p)), vs)
    ensures ServeNext(cfg, s, p) ==
      if |CStr(Body(p))| != 528 then Replies(s, Ascii("E22"), s.m)
      else if !p.env.hasMemory then Replies(s, Ascii("E12"), s.m)
      else Replies(s, Ascii("OK"), WithAll(s.m, vs))
  {
    TextOf(p, 'G');
    AllWritesAnswer(cfg, s.m, p);
    if |CStr(Body(p))| == 528 && p.env.hasMemory {
      AllWritten(s.m, CStr(Body(p)), p.env, vs);
    } else {
      NothingWritten(s.m, CStr(Body(p)), p.env);
    }
    FormsServed(cfg, s, p, AnswerTo(cfg, s.m, p));
  }

  // ---------------------------------------------------------------- q

  lemma QueryAnswer(cfg: Config, m: Machine, p: Arrival)
    requires Riscv.Ok(m) && L.Request(p.frame) == 'q' as byte
    ensures Forms(L.Request(p.frame)) && Present(cfg.ops, L.Request(p.frame))
    ensures AnswerTo(cfg, m, p) == Answering(Query(cfg, L.Arguments(p.frame), p.env), m)
  {
  }

  lemma QueryServed(cfg: Config, s: State, p: Arrival, text: Option<seq<byte>>)
    requires Ready(s) && Asks(p, 'q') && Query(cfg, CStr(Body(p)), p.env) == text
    ensures ServeNext(cfg, s, p) ==
      if text.Some? && Sendable(text.value) then Replies(s, text.value, s.m) else Fails(s)
  {
    TextOf(p, 'q');
    QueryAnswer(cfg, s.m, p);
    FormsServed(cfg, s, p, AnswerTo(cfg, s.m, p));
  }

  lemma Texts()
    ensures Ascii("C") != Ascii("Supported") && Ascii("C") != Ascii("Attached") && Ascii("C") != Ascii("Xfer")
    ensures |Ascii("Supported")| == 9 && |Ascii("Attached")| == 8 && |Ascii("Xfer")| == 4 && |Ascii("Symbol")| == 6
    ensures |Ascii("fThreadInfo")| == |Ascii("sThreadInfo")| == 11
    ensures Ascii("fThreadInfo")[0] == 'f' as byte && Ascii("sThreadInfo")[0] == 's' as byte
  {
  }

  lemma QueryOf(cfg: Config, args: seq<byte>, env: Env, name: seq<byte>)
    requires L.NameOf(args, COLON) == name
    ensures name == Ascii("Attached") ==> Query(cfg, args, env) == Some(Ascii("1"))
    ensures name == Ascii("Symbol") ==> Query(cfg, args, env) == Some(Ascii("OK"))
    ensures name == Ascii("sThreadInfo") ==> Query(cfg, args, env) == Some(Ascii("l"))
    ensures name == Ascii("Xfer") ==> Query(cfg, args, env) == XferQuery(cfg, Rest(args, COLON), env)
  {
    Texts();
  }

  /** The queries with a fixed answer. */
  lemma FixedQuery(cfg: Config, s: State, p: Arrival, name: seq<byte>)
    requires Ready(s) && Asks(p, 'q') && Named(Body(p), COLON, name)
    ensures name == Ascii("Attached") ==> ServeNext(cfg, s, p) == Replies(s, Ascii("1"), s.m)
    ensures name == Ascii("Symbol") ==> ServeNext(cfg, s, p) == Replies(s, Ascii("OK"), s.m)
    ensures name == Ascii("sThreadInfo") ==> ServeNext(cfg, s, p) == Replies(s, Ascii("l"), s.m)
  {
    NameFound(Body(p), COLON, name);
    QueryOf(cfg, CStr(Body(p)), p.env, name);
    QueryServed(cfg, s, p, Query(cfg, CStr(Body(p)), p.env));
  }

  /** `qC` with no `get_cpu`, and the names that are not known. */
  lemma EmptyQuery(cfg: Config, s: State, p: Arrival, name: seq<byte>)
    requires Ready(s) && Asks(p, 'q') && Named(Body(p), COLON, name)
    requires name == Ascii("C") ==> !cfg.ops.getCpu
    requires name != Ascii("Supported") && name != Ascii("Attached") && name != Ascii("Xfer")
    requires name != Ascii("Symbol") && name != Ascii("fThreadInfo") && name != Ascii("sThreadInfo")
    ensures ServeNext(cfg, s, p) == Replies(s, [], s.m)
  {
    NameFound(Body(p), COLON, name);
    QueryServed(cfg, s, p, Some([]));
  }

  lemma SupportedTexts(desc: bool)
    ensures Ascii("PacketSize=1024;") + (if desc then Ascii("qXfer:features:read+;") else [])
            + Ascii("QStartNoAckMode+")
         == Ascii("PacketSize=1024;" + (if desc then "qXfer:features:read+;" else "") + "QStartNoAckMode+")
  {
    AsciiJoin("PacketSize=1024;" + (if desc then "qXfer:features:read+;" else ""), "QStartNoAckMode+");
    AsciiJoin("PacketSize=1024;", if desc then "qXfer:features:read+;" else "");
  }

  lemma AsciiJoin(a: string, b: string)
    ensures Ascii(a + b) == Ascii(a) + Ascii(b)
  {
  }

  /** `qSupported`, whatever the client says it can do. */
  lemma SupportedQuery(cfg: Config, s: State, p: Arrival)
    requires Ready(s) && Asks(p, 'q') && Named(Body(p), COLON, Ascii("Supported"))
    ensures ServeNext(cfg, s, p) ==
      Replies(s, Ascii("PacketSize=1024;" + (if cfg.desc.Some? then "qXfer:features:read+;" else "")
                       + "QStartNoAckMode+"), s.m)
  {
    NameFound(Body(p), COLON, Ascii("Supported"));
    Texts();
    SupportedTexts(cfg.desc.Some?);
    QueryServed(cfg, s, p, Query(cfg, CStr(Body(p)), p.env));
  }

  /** `qC` with a `get_cpu`, and `qfThreadInfo`: the texts that are given. */
  lemma GivenQuery(cfg: Config, s: State, p: Arrival, name: seq<byte>)
    requires Ready(s) && Asks(p, 'q') && Named(Body(p), COLON, name)
    requires (name == Ascii("C") && cfg.ops.getCpu) || name == Ascii("fThreadInfo")
    ensures ServeNext(cfg, s, p) == if Sendable(p.env.text) then Replies(s, p.env.text, s.m) else Fails(s)
  {
    NameFound(Body(p), COLON, name);
    Texts();
    QueryServed(cfg, s, p, Some(p.env.text));
  }

  /**
   * `qXfer:features:...` with a description: the marker, `l` if the rest fits and `m` if not, and the next
   * bytes from the offset on, as many as fit beside the marker and a NUL.
   */
  lemma XferRequest(cfg: Config, s: State, p: Arrival, more: seq<byte>, room: int)
    requires Ready(s) && Asks(p, 'q') && cfg.desc.Some? && p.env.parsed
    requires Separated(Body(p), COLON, Ascii("Xfer")) && more == Body(p)[5..]
    requires Named(more, COLON, Ascii("features"))
    requires 0 <= p.env.offset <= |cfg.desc.value| && 1 <= p.env.length
    requires room == (if p.env.length < 4090 then p.env.length else 4090) - 1
    ensures var rest := cfg.desc.value[p.env.offset..];
      ServeNext(cfg, s, p)
      == Replies(s, if |rest| <= room then ['l' as byte] + rest else ['m' as byte] + rest[..room], s.m)
  {
    XferName(cfg, Body(p), more, p.env);
    X.ReplySendable(cfg.desc.value, p.env.offset, p.env.length);
    PieceMeans(cfg.desc.value, p.env.offset, p.env.length, room);
    QueryServed(cfg, s, p, X.PieceText(X.Piece(cfg.desc.value, p.env.offset, p.env.length)));
  }

  lemma PieceMeans(desc: seq<byte>, offset: int, length: int, room: int)
    requires 0 <= offset <= |desc| && 1 <= length && room == (if length < 4090 then length else 4090) - 1
    ensures var rest := desc[offset..];
      X.PieceText(X.Piece(desc, offset, length))
      == Some(if |rest| <= room then ['l' as byte] + rest else ['m' as byte] + rest[..room])
  {
    assert |desc[offset..]| == |desc| - offset;
    if |desc| - offset > room { assert desc[offset..][..room] == desc[offset..offset + room]; }
  }

  /** Without a description, or for any other object, the reply is empty; without its numbers a request fails. */
  lemma XferRefused(cfg: Config, s: State, p: Arrival, more: seq<byte>, name: seq<byte>)
    requires Ready(s) && Asks(p, 'q')
    requires Separated(Body(p), COLON, Ascii("Xfer")) && more == Body(p)[5..] && Named(more, COLON, name)
    requires name != Ascii("features") || cfg.desc == None || !p.env.parsed
    ensures ServeNext(cfg, s, p) ==
      if name == Ascii("features") && cfg.desc.Some? then Fails(s) else Replies(s, [], s.m)
  {
    XferArgs(Body(p), more);
    NameFound(more, COLON, name);
    QueryOf(cfg, CStr(Body(p)), p.env, Ascii("Xfer"));
    QueryServed(cfg, s, p, XferQuery(cfg, Some(CStr(more)), p.env));
  }

  lemma XferArgs(body: seq<byte>, more: seq<byte>)
    requires Separated(body, COLON, Ascii("Xfer")) && more == body[5..]
    ensures L.NameOf(CStr(body), COLON) == Ascii("Xfer") && Rest(CStr(body), COLON) == Some(CStr(more))
  {
    NameFound(body, COLON, Ascii("Xfer"));
    RestIs(body, COLON, Ascii("Xfer"));
  }

  lemma XferName(cfg: Config, body: seq<byte>, more: seq<byte>, env: Env)
    requires Separated(body, COLON, Ascii("Xfer")) && more == body[5..] && Named(more, COLON, Ascii("features"))
    requires cfg.desc.Some? && env.parsed
    ensures Query(cfg, CStr(body), env) == X.PieceText(X.Piece(cfg.desc.value, env.offset, env.length))
  {
    XferArgs(body, more);
    NameFound(more, COLON, Ascii("features"));
    QueryOf(cfg, CStr(body), env, Ascii("Xfer"));
    XferFeatures(cfg, CStr(more), env);
  }

  lemma XferFeatures(cfg: Config, args: seq<byte>, env: Env)
    requires L.NameOf(args, COLON) == Ascii("features") && cfg.desc.Some? && env.parsed
    ensures XferQuery(cfg, Some(args), env) == X.PieceText(X.Piece(cfg.desc.value, env.offset, env.length))
  {
  }
}
