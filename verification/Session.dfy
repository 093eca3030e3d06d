/**
 * A whole session of src/gdbstub.c with the reference emulator as its target: every packet goes
 * through the real handlers, each of which appends its own reply, and the machine is carried from
 * packet to packet.
 */
module Session {
  import opened Bytes
  import opened Codec
  import opened Connection
  import opened Protocol
  import opened Stepping
  import opened Riscv
  import opened Emulator
  import opened MemoryCommands
  import R = Registers
  import RR = RegisterRead
  import X = Xfer
  import L = MainLoop
  import LittleEndian

  /** A string without NUL. */
  type cstring = s: seq<byte> | 0 !in s witness []

  /** The operations present, and the target description if there is one. */
  datatype Config = Config(ops: L.Ops, desc: Option<cstring>)

  /**
   * What the handling of one packet depends on besides the packet and the machine: whether sscanf
   * finds its numbers and which, whether an allocation succeeds, the text of the two replies that are
   * not modelled (`qC` and `qfThreadInfo`), and when a halt is seen.
   */
  datatype Env = Env(parsed: bool, addr: u64, len: u64, software: bool, regno: int32, offset: int, length: int,
                     hasMemory: bool, text: cstring, haltAfter: nat)

  datatype Arrival = Arrival(frame: L.Frame, env: Env)

  // ---------------------------------------------------------------- the emulator's registers

  function EmuWidths(): (widths: seq<nat>)
    ensures |widths| == EMU_REGS && forall i :: 0 <= i < EMU_REGS ==> widths[i] == REGSZ
  {
    seq(EMU_REGS, i => REGSZ)
  }

  lemma EmuLayout()
    ensures |EmuWidths()| == EMU_REGS && R.Uniform(EmuWidths()) && R.TotalBytes(EmuWidths()) == EMU_REGS * REGSZ
    ensures RR.Fits(EmuWidths(), MAX_SEND_PACKET_SIZE)
  {
    assert forall i :: 0 <= i < EMU_REGS ==> EmuWidths()[i] == REGSZ;
    R.UniformPrefix(EmuWidths(), EMU_REGS);
  }

  function RegsOf(m: Machine): (regs: seq<seq<byte>>)
    requires Riscv.Ok(m)
    ensures R.WellSized(EmuWidths(), regs)
  {
    seq(EMU_REGS, i requires 0 <= i < EMU_REGS => RegBytes(m, i))
  }

  /** The machine with the first `n` registers written. */
  function WithRegs(m: Machine, regs: seq<seq<byte>>, n: nat): (r: Machine)
    requires Riscv.Ok(m) && R.WellSized(EmuWidths(), regs) && n <= EMU_REGS
    ensures Riscv.Ok(r) && r.mem == m.mem && r.codeSize == m.codeSize && r.bpAddr == m.bpAddr && r.bpIsSet == m.bpIsSet
  {
    if n == 0 then m else SetRegBytes(WithRegs(m, regs, n - 1), n - 1, regs[n - 1])
  }

  lemma {:induction false} WithRegsAt(m: Machine, regs: seq<seq<byte>>, n: nat, i: nat)
    requires Riscv.Ok(m) && R.WellSized(EmuWidths(), regs) && n <= EMU_REGS && i < EMU_REGS
    ensures RegBytes(WithRegs(m, regs, n), i) == if i < n then regs[i] else RegBytes(m, i)
    decreases n
  {
    if n > 0 {
      WithRegsAt(m, regs, n - 1, i);
      RegRoundTrip(WithRegs(m, regs, n - 1), n - 1, regs[n - 1], i);
    }
  }

  /** The registers written are the registers there are. */
  lemma RegsOfWithRegs(m: Machine, regs: seq<seq<byte>>)
    requires Riscv.Ok(m) && R.WellSized(EmuWidths(), regs)
    ensures RegsOf(WithRegs(m, regs, EMU_REGS)) == regs
  {
    forall i | 0 <= i < EMU_REGS ensures RegsOf(WithRegs(m, regs, EMU_REGS))[i] == regs[i] {
      WithRegsAt(m, regs, EMU_REGS, i);
    }
  }

  // ---------------------------------------------------------------- replies

  /** The bytes behind the request up to where the '#' was. */
  function Payload(frame: L.Frame): seq<byte>
  {
    if |frame| == 4 then [] else frame[2..|frame| - 3]
  }

  /** What `M` can read from behind its ':' on, if it has one. */
  function Content(frame: L.Frame): Option<seq<byte>>
  {
    match ColonAt(Payload(frame))
    case None => None
    case Some(i) => Some(Behind(Payload(frame)[i + 1..], frame[|frame| - 2..]))
  }

  /** The string behind the first `sep`, if there is one. */
  function Rest(s: seq<byte>, sep: byte): Option<seq<byte>>
  {
    if sep in s then Some(s[IndexOf(s, sep) + 1..]) else None
  }

  const EQUALS: byte := '=' as byte

  /** A reply, or none if an assertion fails, and the machine afterwards. */
  datatype Answering = Answering(text: Option<seq<byte>>, m: Machine)

  function ReadOne(m: Machine, env: Env): Option<seq<byte>>
    requires Riscv.Ok(m)
  {
    if !env.parsed || env.regno < 0 then None
    else if env.regno > 32 then Some(ErrorText(EFAULT))
    else Some(HexEncode(RegBytes(m, env.regno)))
  }

  function WriteOne(m: Machine, args: seq<byte>, env: Env): Answering
    requires Riscv.Ok(m)
  {
    var data := Rest(args, EQUALS);
    if !env.parsed || data == None || |data.value| != 2 * REGSZ || env.regno < 0 then Answering(None, m)
    else if env.regno > 32 then Answering(Some(ErrorText(EFAULT)), m)
    else Answering(Some(Ascii("OK")), SetRegBytes(m, env.regno, HexDecode(data.value, REGSZ)))
  }

  function WriteRegs(m: Machine, args: seq<byte>, env: Env): Answering
    requires Riscv.Ok(m)
  {
    var (reply, regs) := R.RegWrite(EmuWidths(), RegsOf(m), args, env.hasMemory, [], 0);
    WrittenSized(m, args, env);
    Answering(Some(R.ReplyText(reply)), WithRegs(m, regs, EMU_REGS))
  }

  lemma WrittenSized(m: Machine, args: seq<byte>, env: Env)
    requires Riscv.Ok(m)
    ensures R.WellSized(EmuWidths(), R.RegWrite(EmuWidths(), RegsOf(m), args, env.hasMemory, [], 0).1)
  {
    NoFailures(0, EMU_REGS);
    EmuLayout();
    R.AllOrNothing(EmuWidths(), RegsOf(m), args, env.hasMemory, [], 0);
    if |args| == 2 * R.TotalBytes(EmuWidths()) { RR.ParsedWellSized(EmuWidths(), args); }
  }

  /** The emulator's register operations never fail. */
  lemma {:induction false} NoFailures(from: nat, n: nat)
    ensures R.FirstFailure([], from, n) == n
    decreases n
  {
    if n > 0 { NoFailures(from + 1, n - 1); }
  }

  function MemAnswer(m: Machine, r: (MemReply, seq<byte>)): Answering
  {
    Answering(MemText(r.0), m.(mem := r.1))
  }

  /** `process_query` */
  function Query(cfg: Config, args: seq<byte>, env: Env): Option<seq<byte>>
  {
    var name := L.NameOf(args, COLON);
    if name == Ascii("C") then Some(if cfg.ops.getCpu then env.text else [])
    else if name == Ascii("Supported") then
      Some(Ascii("PacketSize=1024;") + (if cfg.desc.Some? then Ascii("qXfer:features:read+;") else [])
           + Ascii("QStartNoAckMode+"))
    else if name == Ascii("Attached") then Some(Ascii("1"))
    else if name == Ascii("Xfer") then XferQuery(cfg, Rest(args, COLON), env)
    else if name == Ascii("Symbol") then Some(Ascii("OK"))
    else if name == Ascii("fThreadInfo") then Some(env.text)
    else if name == Ascii("sThreadInfo") then Some(Ascii("l"))
    else Some([])
  }

  function XferQuery(cfg: Config, args: Option<seq<byte>>, env: Env): Option<seq<byte>>
  {
    if args == None then None
    else if L.NameOf(args.value, COLON) == Ascii("features") && cfg.desc.Some? then
      if env.parsed then X.PieceText(X.Piece(cfg.desc.value, env.offset, env.length)) else None
    else Some([])
  }

  /** `process_vcont_support` */
  function VContText(ops: L.Ops): seq<byte>
  {
    Ascii("vCont;") + (if ops.stepi then Ascii("s;") else []) + if ops.cont then Ascii("c;") else []
  }

  /** The handlers that form their own reply, for the operations that are present. */
  function AnswerTo(cfg: Config, m: Machine, p: Arrival): (a: Answering)
    requires Riscv.Ok(m)
    ensures Riscv.Ok(a.m)
  {
    var ops, env := cfg.ops, p.env;
    var r, args := L.Request(p.frame), L.Arguments(p.frame);
    if r == 'g' as byte && ops.readReg then Answering(Some(HexEncode(R.Flatten(RegsOf(m), EMU_REGS))), m)
    else if r == 'p' as byte && ops.readReg then Answering(ReadOne(m, env), m)
    else if r == 'G' as byte && ops.writeReg then WriteRegs(m, args, env)
    else if r == 'P' as byte && ops.writeReg then WriteOne(m, args, env)
    else if r == 'm' as byte && ops.readMem then
      Answering(if env.parsed then MemText(MemRead(m.mem, env.addr, env.len)) else None, m)
    else if r == 'M' as byte && ops.writeMem && env.parsed then
      MemAnswer(m, MemWrite(m.mem, env.addr, env.len, Content(p.frame)))
    else if r == 'X' as byte && ops.writeMem && env.parsed then
      MemAnswer(m, XWrite(m.mem, Payload(p.frame), env.addr, env.len))
    else if r == 'z' as byte && ops.delBp && env.parsed then
      var (ok, d) := DeleteBreakpoint(m, env.addr, env.software);
      Answering(Some(if ok then Ascii("OK") else Ascii("E22")), d)
    else if r == 'Z' as byte && ops.setBp && env.parsed then
      var (ok, d) := SetBreakpoint(m, env.addr, env.software);
      Answering(Some(if ok then Ascii("OK") else Ascii("E22")), d)
    else if r == 'H' as byte && ops.setCpu then
      Answering(if args != [] && args[0] == 'g' as byte && !env.parsed then None else Some(Ascii("OK")), m)
    else if r == 'q' as byte then Answering(Query(cfg, args, env), m)
    else if r == 'v' as byte then Answering(Some(VContText(ops)), m)
    else Answering(None, m)
  }

  /** As an answer for the dispatcher. */
  function ToAnswer(text: Option<seq<byte>>, act: Action): L.Answer
  {
    L.Answer(text.Some?, if text.Some? then text.value else [], act)
  }

  /** `gdbstub_handle_event`; `Lost` when the guest leaves its memory. */
  datatype Acted = Lost | Acted(act: Action, m: Machine)

  function Act(m: Machine, event: Event, env: Env): (r: Acted)
    requires Riscv.Ok(m)
    ensures r.Acted? ==> Riscv.Ok(r.m)
  {
    match event
    case EventCont =>
      var e := Riscv.Continue(m, env.haltAfter);
      ContinueKeeps(m, env.haltAfter);
      if e.stop == WildAccess then Lost else Acted(if e.stop == ToHost then ActShutdown else ActResume, e.m)
    case EventStep =>
      StepKeeps(m);
      if StepI(m).Wild? then Lost else Acted(ActResume, StepI(m).m)
    case EventDetach => Acted(ActShutdown, m)
    case EventNone => Acted(ActNone, m)
  }

  lemma ContinueKeeps(m: Machine, budget: nat)
    requires Riscv.Ok(m)
    ensures Riscv.Ok(Riscv.Continue(m, budget).m)
  {
    ContinueIsStepI(m, budget);
    RunKeeps(m, Riscv.Continue(m, budget).steps);
  }

  // ---------------------------------------------------------------- sessions

  /** What the dispatcher makes of an accepted packet, before the target runs. */
  function Dispatched(cfg: Config, m: Machine, p: Arrival): L.Handled
    requires Riscv.Ok(m)
  {
    L.Process(cfg.ops, p.frame, ToAnswer(AnswerTo(cfg, m, p).text, ActNone))
  }

  datatype Served = LostIt | Served(answer: L.Answer, m: Machine)

  /** After the handler, the run it asks for. */
  function Carry(h: L.Handled, m: Machine, a: Answering, env: Env): (r: Served)
    requires Riscv.Ok(m) && Riscv.Ok(a.m)
    ensures r.Served? ==> Riscv.Ok(r.m)
  {
    match h
    case Abort => Served(ToAnswer(a.text, ActNone), m)
    case Handled(_, event, _) =>
      match Act(a.m, event, env)
      case Lost => LostIt
      case Acted(act, n) => Served(ToAnswer(a.text, act), n)
  }

  /** An accepted packet: its handler, then the run it asks for. */
  function Serve(cfg: Config, m: Machine, p: Arrival): (r: Served)
    requires Riscv.Ok(m)
    ensures r.Served? ==> Riscv.Ok(r.m)
  {
    Carry(Dispatched(cfg, m, p), m, AnswerTo(cfg, m, p), p.env)
  }

  /** Any popped packet: a rejected one reaches no handler. */
  function Take(cfg: Config, m: Machine, p: Arrival): (r: Served)
    requires Riscv.Ok(m)
    ensures r.Served? ==> Riscv.Ok(r.m)
  {
    if Verifies(p.frame) then Serve(cfg, m, p) else Served(ToAnswer(None, ActNone), m)
  }

  /** The main loop's state and the machine; `lost` once the guest has left its memory. */
  datatype State = State(loop: L.State, m: Machine, lost: bool)

  predicate Alive(s: State)
  {
    !s.lost && s.loop.status == L.Running
  }

  function ServeNext(cfg: Config, s: State, p: Arrival): (r: State)
    requires Riscv.Ok(s.m)
    ensures Riscv.Ok(r.m)
  {
    match Take(cfg, s.m, p)
    case LostIt => s.(lost := true)
    case Served(answer, m) => State(L.Step(cfg.ops, s.loop, L.Input(p.frame, answer)), m, false)
  }

  /** The loop over the packets it pops; it stops when it returns, and when the guest is lost. */
  function Run(cfg: Config, s: State, packets: seq<Arrival>): (r: State)
    requires Riscv.Ok(s.m)
    ensures Riscv.Ok(r.m)
    decreases |packets|
  {
    if packets == [] || !Alive(s) then s else Run(cfg, ServeNext(cfg, s, packets[0]), packets[1..])
  }

  /** The packets processed, each with what the handlers and the target made of it. */
  function Inputs(cfg: Config, s: State, packets: seq<Arrival>): (inputs: L.Inputs)
    requires Riscv.Ok(s.m)
    ensures |inputs| <= |packets|
    decreases |packets|
  {
    if packets == [] || !Alive(s) then []
    else
      match Take(cfg, s.m, packets[0])
      case LostIt => []
      case Served(answer, _) =>
        [L.Input(packets[0].frame, answer)] + Inputs(cfg, ServeNext(cfg, s, packets[0]), packets[1..])
  }

  /** With the real handlers in place a session is a run of the main loop, and all that holds of those holds of it. */
  lemma {:induction false} SessionIsLoop(cfg: Config, s: State, packets: seq<Arrival>)
    requires Riscv.Ok(s.m)
    ensures var inputs := Inputs(cfg, s, packets);
      && Run(cfg, s, packets).loop == L.Run(cfg.ops, s.loop, inputs)
      && L.Popped(cfg.ops, s.loop, inputs) == |inputs|
    decreases |packets|
  {
    if packets != [] && Alive(s) {
      var p := packets[0];
      if Take(cfg, s.m, p).Served? {
        var next := ServeNext(cfg, s, p);
        SessionIsLoop(cfg, next, packets[1..]);
        LoopCons(cfg.ops, s.loop, L.Input(p.frame, Take(cfg, s.m, p).answer), Inputs(cfg, next, packets[1..]));
      } else {
        LostStays(cfg, s, packets);
      }
    }
  }

  /** The packets processed are the first ones, in order. */
  lemma {:induction false} InputsFrames(cfg: Config, s: State, packets: seq<Arrival>, k: nat)
    requires Riscv.Ok(s.m) && k < |Inputs(cfg, s, packets)|
    ensures Inputs(cfg, s, packets)[k].frame == packets[k].frame
    decreases |packets|
  {
    if k > 0 {
      var next := ServeNext(cfg, s, packets[0]);
      assert Inputs(cfg, s, packets)[1..] == Inputs(cfg, next, packets[1..]);
      InputsFrames(cfg, next, packets[1..], k - 1);
    }
  }

  lemma LostStays(cfg: Config, s: State, packets: seq<Arrival>)
    requires Riscv.Ok(s.m) && packets != [] && Alive(s) && Take(cfg, s.m, packets[0]) == LostIt
    ensures Run(cfg, s, packets) == s.(lost := true) && Inputs(cfg, s, packets) == []
  {
  }

  lemma LoopCons(ops: L.Ops, s: L.State, i: L.Input, rest: L.Inputs)
    requires s.status == L.Running
    ensures L.Run(ops, s, [i] + rest) == L.Run(ops, L.Step(ops, s, i), rest)
    ensures L.Popped(ops, s, [i] + rest) == 1 + L.Popped(ops, L.Step(ops, s, i), rest)
  {
    assert ([i] + rest)[1..] == rest;
  }

  function Start(m: Machine): State
  {
    State(L.START, m, false)
  }

  /**
   * Reply conservation with the real handlers: on every session without a failed assertion the replies
   * sent are the accepted packets less the continues that the guest ended.
   */
  lemma SessionReplies(cfg: Config, m: Machine, packets: seq<Arrival>)
    requires Riscv.Ok(m) && Run(cfg, Start(m), packets).loop.status != L.Aborted
    ensures var r, inputs := Run(cfg, Start(m), packets), Inputs(cfg, Start(m), packets);
      |L.RepliesIn(r.loop.out)| == L.Count(cfg.ops, inputs, L.Accepted) - L.Count(cfg.ops, inputs, L.SilentRun)
  {
    SessionIsLoop(cfg, Start(m), packets);
    var inputs := Inputs(cfg, Start(m), packets);
    assert inputs[..|inputs|] == inputs;
    L.ReplyConservation(cfg.ops, inputs);
  }

  /** A packet goes without a reply exactly when it is an accepted continue in which the guest wrote its tohost byte. */
  lemma SilentExactly(cfg: Config, m: Machine, p: Arrival)
    requires Riscv.Ok(m) && Take(cfg, m, p).Served?
    ensures L.Silent(cfg.ops, L.Input(p.frame, Take(cfg, m, p).answer)) <==>
      && Verifies(p.frame) && Dispatched(cfg, m, p).Handled? && Dispatched(cfg, m, p).event == EventCont
      && Riscv.Continue(AnswerTo(cfg, m, p).m, p.env.haltAfter).stop == ToHost
  {
    if Verifies(p.frame) {
      var a := Take(cfg, m, p).answer;
      ActIgnored(cfg.ops, p.frame, ToAnswer(AnswerTo(cfg, m, p).text, ActNone), a.act);
    }
  }

  /** The dispatcher does not look at what the run will come to. */
  lemma ActIgnored(ops: L.Ops, frame: L.Frame, a: L.Answer, act: Action)
    ensures L.Process(ops, frame, a.(act := act)) == L.Process(ops, frame, a)
  {
  }

  // ---------------------------------------------------------------- what a session does to the machine

  /** What a packet asks of the target; it can be told from the packet alone. */
  datatype Effect =
    | Nothing
    | Poke(addr: nat, val: seq<byte>)
    | SetAll(regs: seq<seq<byte>>)
    | SetOne(regno: nat, data: seq<byte>)
    | Break(bp: u64, software: bool)
    | Unbreak(bp: u64, software: bool)
    | RunOn(haltAfter: nat)
    | StepOn

  predicate Sound(e: Effect)
  {
    match e
    case Poke(addr, val) => addr + |val| <= MEM_SIZE
    case SetAll(regs) => R.WellSized(EmuWidths(), regs)
    case SetOne(regno, data) => regno < EMU_REGS && |data| == REGSZ
    case _ => true
  }

  function Apply(m: Machine, e: Effect): (r: Machine)
    requires Riscv.Ok(m) && Sound(e)
    ensures Riscv.Ok(r)
  {
    match e
    case Nothing => m
    case Poke(addr, val) => m.(mem := Splice(m.mem, addr, val))
    case SetAll(regs) => WithRegs(m, regs, EMU_REGS)
    case SetOne(regno, data) => SetRegBytes(m, regno, data)
    case Break(bp, software) => SetBreakpoint(m, bp, software).1
    case Unbreak(bp, software) => DeleteBreakpoint(m, bp, software).1
    case RunOn(haltAfter) =>
      ContinueKeeps(m, haltAfter);
      Riscv.Continue(m, haltAfter).m
    case StepOn =>
      StepKeeps(m);
      if StepI(m).Ran? then StepI(m).m else m
  }

  /** `M`: the bytes, if they reach memory. */
  function WriteOf(p: Arrival): (e: Effect)
    ensures Sound(e)
  {
    var addr, len, content := p.env.addr, p.env.len, Content(p.frame);
    if p.env.parsed && addr + len <= MEM_SIZE && Enough(content, len)
    then Poke(addr, Decoded(content, len)) else Nothing
  }

  /** `X` likewise. */
  function XWriteOf(p: Arrival): (e: Effect)
    ensures Sound(e)
  {
    var addr, len, val := p.env.addr, p.env.len, XContent(Payload(p.frame));
    if p.env.parsed && addr + len <= MEM_SIZE && val.Some? && |val.value| == len
    then Poke(addr, val.value) else Nothing
  }

  function SetAllOf(args: seq<byte>, hasMemory: bool): (e: Effect)
    ensures Sound(e)
  {
    EmuLayout();
    if |args| != 2 * R.TotalBytes(EmuWidths()) || !hasMemory then Nothing
    else
      RR.ParsedWellSized(EmuWidths(), args);
      SetAll(R.Parsed(EmuWidths(), args, EMU_REGS))
  }

  function SetOneOf(args: seq<byte>, env: Env): (e: Effect)
    ensures Sound(e)
  {
    var data := Rest(args, EQUALS);
    if !env.parsed || data == None || |data.value| != 2 * REGSZ || !(0 <= env.regno < EMU_REGS) then Nothing
    else SetOne(env.regno, HexDecode(data.value, REGSZ))
  }

  function RunOf(ops: L.Ops, p: Arrival): (e: Effect)
    ensures Sound(e) && (e == Nothing || e == StepOn || e == RunOn(p.env.haltAfter))
  {
    var h := L.Process(ops, p.frame, L.Answer(true, [], ActNone));
    if h == L.Abort then Nothing
    else if h.event == EventCont then RunOn(p.env.haltAfter)
    else if h.event == EventStep then StepOn
    else Nothing
  }

  function EffectOf(cfg: Config, p: Arrival): (e: Effect)
    ensures Sound(e)
  {
    var ops, r, args := cfg.ops, L.Request(p.frame), L.Arguments(p.frame);
    if !Verifies(p.frame) then Nothing
    else if r == 'M' as byte && ops.writeMem then WriteOf(p)
    else if r == 'X' as byte && ops.writeMem then XWriteOf(p)
    else if r == 'G' as byte && ops.writeReg then SetAllOf(args, p.env.hasMemory)
    else if r == 'P' as byte && ops.writeReg then SetOneOf(args, p.env)
    else if r == 'Z' as byte && ops.setBp && p.env.parsed then Break(p.env.addr, p.env.software)
    else if r == 'z' as byte && ops.delBp && p.env.parsed then Unbreak(p.env.addr, p.env.software)
    else RunOf(ops, p)
  }

  function EffectsOf(cfg: Config, packets: seq<Arrival>): (es: seq<Effect>)
    ensures |es| == |packets| && forall e :: e in es ==> Sound(e)
  {
    if packets == [] then [] else [EffectOf(cfg, packets[0])] + EffectsOf(cfg, packets[1..])
  }

  function ApplyAll(m: Machine, es: seq<Effect>): (r: Machine)
    requires Riscv.Ok(m) && forall e :: e in es ==> Sound(e)
    ensures Riscv.Ok(r)
    decreases |es|
  {
    if es == [] then m else ApplyAll(Apply(m, es[0]), es[1..])
  }

  lemma WriteServed(m: Machine, p: Arrival, content: Option<seq<byte>>)
    requires Riscv.Ok(m) && p.env.parsed && content == Content(p.frame)
    ensures m.(mem := MemWrite(m.mem, p.env.addr, p.env.len, content).1) == Apply(m, WriteOf(p))
  {
    MemWriteExact(m.mem, p.env.addr, p.env.len, content);
    assert m.(mem := m.mem) == m;
  }

  lemma XWriteServed(m: Machine, p: Arrival, payload: seq<byte>)
    requires Riscv.Ok(m) && p.env.parsed && payload == Payload(p.frame)
    ensures m.(mem := XWrite(m.mem, payload, p.env.addr, p.env.len).1) == Apply(m, XWriteOf(p))
  {
    XWriteExact(m.mem, payload, p.env.addr, p.env.len);
    assert m.(mem := m.mem) == m;
  }

  lemma SetAllServed(m: Machine, args: seq<byte>, env: Env)
    requires Riscv.Ok(m)
    ensures WriteRegs(m, args, env).m == Apply(m, SetAllOf(args, env.hasMemory))
  {
    EmuLayout();
    NoFailures(0, EMU_REGS);
    NoFailures(EMU_REGS, EMU_REGS);
    SameRegs(m, EMU_REGS);
  }

  /** Writing back the registers there are changes nothing. */
  lemma {:induction false} SameRegs(m: Machine, n: nat)
    requires Riscv.Ok(m) && n <= EMU_REGS
    ensures WithRegs(m, RegsOf(m), n) == m
  {
    if n > 0 {
      SameRegs(m, n - 1);
      SameReg(m, n - 1);
    }
  }

  lemma SameReg(m: Machine, i: nat)
    requires Riscv.Ok(m) && i < EMU_REGS
    ensures SetRegBytes(m, i, RegBytes(m, i)) == m
  {
    Pow256Eight();
    FromToRegister(if i == 32 then m.pc else m.x[i]);
  }

  lemma FromToRegister(v: u64)
    ensures RegValue(LittleEndian.ToBytes(v, REGSZ)) == v
  {
    Pow256Eight();
    LittleEndian.FromToBytes(v, REGSZ);
  }

  lemma SetOneServed(m: Machine, args: seq<byte>, env: Env)
    requires Riscv.Ok(m)
    ensures WriteOne(m, args, env).m == Apply(m, SetOneOf(args, env))
  {
  }

  /** The machine after the handler, runs aside. */
  function HandledBy(m: Machine, e: Effect): Machine
    requires Riscv.Ok(m) && Sound(e)
  {
    if e.RunOn? || e.StepOn? then m else Apply(m, e)
  }

  lemma HandlerPokes(m: Machine, p: Arrival, a: Answering, e: Effect)
    requires Riscv.Ok(m)
    requires p.env.parsed ==> var (addr, len) := (p.env.addr, p.env.len);
      || (a == MemAnswer(m, MemWrite(m.mem, addr, len, Content(p.frame))) && e == WriteOf(p))
      || (a == MemAnswer(m, XWrite(m.mem, Payload(p.frame), addr, len)) && e == XWriteOf(p))
    requires !p.env.parsed ==> a.m == m && e == Nothing
    ensures !e.RunOn? && !e.StepOn? && Sound(e) && a.m == Apply(m, e)
  {
    if p.env.parsed {
      WriteServed(m, p, Content(p.frame));
      XWriteServed(m, p, Payload(p.frame));
    }
  }

  lemma HandlerWrites(cfg: Config, m: Machine, p: Arrival)
    requires Riscv.Ok(m) && Verifies(p.frame) && cfg.ops.writeMem
    requires L.Request(p.frame) == 'M' as byte || L.Request(p.frame) == 'X' as byte
    ensures AnswerTo(cfg, m, p).m == HandledBy(m, EffectOf(cfg, p))
  {
    HandlerPokes(m, p, AnswerTo(cfg, m, p), EffectOf(cfg, p));
  }

  lemma HandlerSets(cfg: Config, m: Machine, p: Arrival)
    requires Riscv.Ok(m) && Verifies(p.frame) && cfg.ops.writeReg
    requires L.Request(p.frame) == 'G' as byte || L.Request(p.frame) == 'P' as byte
    ensures AnswerTo(cfg, m, p).m == HandledBy(m, EffectOf(cfg, p))
  {
    SetAllServed(m, L.Arguments(p.frame), p.env);
    SetOneServed(m, L.Arguments(p.frame), p.env);
  }

  /** The handlers change the machine by the packet's effect, runs aside. */
  lemma HandlerEffect(cfg: Config, m: Machine, p: Arrival)
    requires Riscv.Ok(m) && Verifies(p.frame)
    ensures AnswerTo(cfg, m, p).m == HandledBy(m, EffectOf(cfg, p))
  {
    var r := L.Request(p.frame);
    if (r == 'M' as byte || r == 'X' as byte) && cfg.ops.writeMem {
      HandlerWrites(cfg, m, p);
    } else if (r == 'G' as byte || r == 'P' as byte) && cfg.ops.writeReg {
      HandlerSets(cfg, m, p);
    }
  }

  /** Only these requests can run the target. */
  lemma RunRequest(ops: L.Ops, frame: L.Frame, a: L.Answer)
    requires L.Process(ops, frame, a).Handled?
    requires L.Process(ops, frame, a).event == EventCont || L.Process(ops, frame, a).event == EventStep
    ensures L.Request(frame) == 'c' as byte || L.Request(frame) == 's' as byte || L.Request(frame) == 'v' as byte
  {
  }

  /** They do so whatever the answer. */
  lemma RunRequests(ops: L.Ops, frame: L.Frame, a: L.Answer, b: L.Answer)
    requires L.Process(ops, frame, a).Handled?
    requires L.Process(ops, frame, a).event == EventCont || L.Process(ops, frame, a).event == EventStep
    ensures L.Process(ops, frame, b) == L.Process(ops, frame, a)
  {
    RunRequest(ops, frame, a);
    if L.Request(frame) == 'v' as byte {
      assert L.Process(ops, frame, b) == L.VPacket(ops, L.Arguments(frame), b);
    }
  }

  predicate IsRun(event: Event)
  {
    event == EventCont || event == EventStep
  }

  lemma RunOfRequest(cfg: Config, p: Arrival)
    requires Verifies(p.frame) && !Changes(L.Request(p.frame))
    ensures EffectOf(cfg, p) == RunOf(cfg.ops, p)
  {
  }

  lemma ChangesNoRun(ops: L.Ops, frame: L.Frame, a: L.Answer)
    requires Changes(L.Request(frame)) && L.Process(ops, frame, a).Handled?
    ensures !IsRun(L.Process(ops, frame, a).event)
  {
  }

  lemma ChangesEffect(cfg: Config, p: Arrival)
    requires Verifies(p.frame) && Changes(L.Request(p.frame))
    ensures !EffectOf(cfg, p).RunOn? && !EffectOf(cfg, p).StepOn?
  {
    if L.Process(cfg.ops, p.frame, L.Answer(true, [], ActNone)).Handled? {
      ChangesNoRun(cfg.ops, p.frame, L.Answer(true, [], ActNone));
    }
  }

  /** The run a packet asks for is its effect. */
  lemma RunIsEffect(cfg: Config, p: Arrival, a: L.Answer)
    requires Verifies(p.frame) && L.Process(cfg.ops, p.frame, a).Handled?
    ensures var event, e := L.Process(cfg.ops, p.frame, a).event, EffectOf(cfg, p);
      && (event == EventCont ==> e == RunOn(p.env.haltAfter))
      && (event == EventStep ==> e == StepOn)
      && (!IsRun(event) ==> !e.RunOn? && !e.StepOn?)
  {
    if Changes(L.Request(p.frame)) {
      ChangesNoRun(cfg.ops, p.frame, a);
      ChangesEffect(cfg, p);
    } else {
      RunOfRequest(cfg, p);
      RunOfAnswer(cfg.ops, p, a);
    }
  }

  lemma RunOfAnswer(ops: L.Ops, p: Arrival, a: L.Answer)
    requires L.Process(ops, p.frame, a).Handled?
    ensures var event, e := L.Process(ops, p.frame, a).event, RunOf(ops, p);
      && (event == EventCont ==> e == RunOn(p.env.haltAfter))
      && (event == EventStep ==> e == StepOn)
      && (!IsRun(event) ==> e == Nothing)
  {
    var b := L.Answer(true, [], ActNone);
    if IsRun(L.Process(ops, p.frame, a).event) {
      RunRequests(ops, p.frame, a, b);
    } else if L.Process(ops, p.frame, b).Handled? && IsRun(L.Process(ops, p.frame, b).event) {
      RunRequests(ops, p.frame, b, a);
    }
  }

  /** These requests are answered when their handler has an answer. */
  lemma AnsweredRequests(ops: L.Ops, frame: L.Frame, a: L.Answer)
    requires a.wellFormed && Sendable(a.reply)
    requires Changes(L.Request(frame))
    ensures L.Process(ops, frame, a).Handled?
  {
  }

  predicate Changes(r: byte)
  {
    || r == 'M' as byte || r == 'X' as byte || r == 'G' as byte || r == 'P' as byte
    || r == 'Z' as byte || r == 'z' as byte
  }

  /** Only these requests have an effect that is not a run. */
  lemma EffectRequests(cfg: Config, p: Arrival)
    requires var e := EffectOf(cfg, p); e != Nothing && !e.RunOn? && !e.StepOn?
    ensures Verifies(p.frame) && Changes(L.Request(p.frame))
  {
  }

  lemma WriteAnswered(cfg: Config, m: Machine, p: Arrival)
    requires Riscv.Ok(m) && L.Request(p.frame) == 'M' as byte && cfg.ops.writeMem && WriteOf(p) != Nothing
    ensures AnswerTo(cfg, m, p).text == Some(Ascii("OK"))
  {
    var content := Content(p.frame);
    MemWriteExact(m.mem, p.env.addr, p.env.len, content);
    assert AnswerTo(cfg, m, p) == MemAnswer(m, MemWrite(m.mem, p.env.addr, p.env.len, content));
  }

  lemma XWriteAnswered(cfg: Config, m: Machine, p: Arrival)
    requires Riscv.Ok(m) && L.Request(p.frame) == 'X' as byte && cfg.ops.writeMem && XWriteOf(p) != Nothing
    ensures AnswerTo(cfg, m, p).text == Some(Ascii("OK"))
  {
    var payload := Payload(p.frame);
    XWriteExact(m.mem, payload, p.env.addr, p.env.len);
    assert AnswerTo(cfg, m, p) == MemAnswer(m, XWrite(m.mem, payload, p.env.addr, p.env.len));
  }

  /** What has an effect is answered, by `OK` or by `E22`. */
  lemma EffectAnswered(cfg: Config, m: Machine, p: Arrival)
    requires Riscv.Ok(m) && Verifies(p.frame) && Changes(L.Request(p.frame))
    requires var e := EffectOf(cfg, p); e != Nothing && !e.RunOn? && !e.StepOn?
    ensures AnswerTo(cfg, m, p).text == Some(Ascii("OK")) || AnswerTo(cfg, m, p).text == Some(Ascii("E22"))
  {
    var r := L.Request(p.frame);
    if r == 'M' as byte && cfg.ops.writeMem {
      WriteAnswered(cfg, m, p);
    } else if r == 'X' as byte && cfg.ops.writeMem {
      XWriteAnswered(cfg, m, p);
    } else if r == 'G' as byte && cfg.ops.writeReg {
      SetAllAnswered(m, L.Arguments(p.frame), p.env);
    } else {
      OthersAnswered(cfg, m, p);
    }
  }

  lemma OthersAnswered(cfg: Config, m: Machine, p: Arrival)
    requires Riscv.Ok(m) && Verifies(p.frame)
    requires L.Request(p.frame) == 'G' as byte ==> !cfg.ops.writeReg
    requires L.Request(p.frame) == 'M' as byte || L.Request(p.frame) == 'X' as byte ==> !cfg.ops.writeMem
    requires var e := EffectOf(cfg, p); e != Nothing && !e.RunOn? && !e.StepOn?
    ensures AnswerTo(cfg, m, p).text == Some(Ascii("OK")) || AnswerTo(cfg, m, p).text == Some(Ascii("E22"))
  {
  }

  lemma SetAllAnswered(m: Machine, args: seq<byte>, env: Env)
    requires Riscv.Ok(m) && SetAllOf(args, env.hasMemory) != Nothing
    ensures WriteRegs(m, args, env).text == Some(Ascii("OK"))
  {
    EmuLayout();
    NoFailures(0, EMU_REGS);
    NoFailures(EMU_REGS, EMU_REGS);
  }

  /** An assertion fails only where the packet has no effect. */
  lemma AbortedNothing(cfg: Config, m: Machine, p: Arrival)
    requires Riscv.Ok(m) && Verifies(p.frame) && Dispatched(cfg, m, p) == L.Abort
    ensures EffectOf(cfg, p) == Nothing
  {
    var e := EffectOf(cfg, p);
    var a := ToAnswer(AnswerTo(cfg, m, p).text, ActNone);
    if e.RunOn? || e.StepOn? {
      RunRequests(cfg.ops, p.frame, L.Answer(true, [], ActNone), a);
    } else if e != Nothing {
      EffectRequests(cfg, p);
      EffectAnswered(cfg, m, p);
      AnsweredRequests(cfg.ops, p.frame, a);
    }
  }

  /** Whatever a packet does to the machine is its effect. */
  lemma ServedEffect(cfg: Config, m: Machine, p: Arrival)
    requires Riscv.Ok(m) && Take(cfg, m, p).Served?
    ensures Take(cfg, m, p).m == Apply(m, EffectOf(cfg, p))
  {
    if Verifies(p.frame) {
      var h := Dispatched(cfg, m, p);
      if h == L.Abort {
        AbortedNothing(cfg, m, p);
      } else {
        HandlerEffect(cfg, m, p);
        RunIsEffect(cfg, p, ToAnswer(AnswerTo(cfg, m, p).text, ActNone));
      }
    }
  }

  lemma EffectsFirst(cfg: Config, packets: seq<Arrival>, n: nat)
    requires 0 < n <= |packets|
    ensures EffectsOf(cfg, packets[..n]) == [EffectOf(cfg, packets[0])] + EffectsOf(cfg, packets[1..][..n - 1])
  {
    assert packets[..n][1..] == packets[1..][..n - 1];
  }

  lemma ApplyFirst(m: Machine, e: Effect, es: seq<Effect>)
    requires Riscv.Ok(m) && Sound(e) && forall x :: x in es ==> Sound(x)
    ensures ApplyAll(m, [e] + es) == ApplyAll(Apply(m, e), es)
  {
    assert ([e] + es)[1..] == es;
  }

  /**
   * After any session, memory, registers, pc and breakpoint are what the effects of the packets
   * processed make of the machine at its start, in order; each effect can be told from its packet.
   */
  lemma {:induction false} MachineIsFold(cfg: Config, s: State, packets: seq<Arrival>)
    requires Riscv.Ok(s.m)
    ensures var n := |Inputs(cfg, s, packets)|;
      Run(cfg, s, packets).m == ApplyAll(s.m, EffectsOf(cfg, packets[..n]))
    decreases |packets|
  {
    if packets != [] && Alive(s) && Take(cfg, s.m, packets[0]).Served? {
      MachineIsFold(cfg, ServeNext(cfg, s, packets[0]), packets[1..]);
      FoldSome(cfg, s, packets, ServeNext(cfg, s, packets[0]));
    } else {
      FoldNone(cfg, s, packets);
    }
  }

  lemma FoldSome(cfg: Config, s: State, packets: seq<Arrival>, next: State)
    requires Riscv.Ok(s.m) && packets != [] && Alive(s) && Take(cfg, s.m, packets[0]).Served?
    requires next == ServeNext(cfg, s, packets[0])
    requires Run(cfg, next, packets[1..]).m
          == ApplyAll(next.m, EffectsOf(cfg, packets[1..][..|Inputs(cfg, next, packets[1..])|]))
    ensures Run(cfg, s, packets).m == ApplyAll(s.m, EffectsOf(cfg, packets[..|Inputs(cfg, s, packets)|]))
  {
    RunFirst(cfg, s, packets, next);
    FoldFirst(cfg, s, packets, |Inputs(cfg, next, packets[1..])|);
  }

  lemma RunFirst(cfg: Config, s: State, packets: seq<Arrival>, next: State)
    requires Riscv.Ok(s.m) && packets != [] && Alive(s) && Take(cfg, s.m, packets[0]).Served?
    requires next == ServeNext(cfg, s, packets[0])
    ensures Run(cfg, s, packets) == Run(cfg, next, packets[1..])
    ensures |Inputs(cfg, s, packets)| == 1 + |Inputs(cfg, next, packets[1..])|
  {
  }

  lemma FoldNone(cfg: Config, s: State, packets: seq<Arrival>)
    requires Riscv.Ok(s.m) && (packets == [] || !Alive(s) || Take(cfg, s.m, packets[0]) == LostIt)
    ensures Inputs(cfg, s, packets) == [] && Run(cfg, s, packets).m == s.m
    ensures ApplyAll(s.m, EffectsOf(cfg, packets[..0])) == s.m
  {
    if packets != [] && Alive(s) { LostStays(cfg, s, packets); }
    assert packets[..0] == [];
  }

  lemma FoldFirst(cfg: Config, s: State, packets: seq<Arrival>, n: nat)
    requires Riscv.Ok(s.m) && packets != [] && n < |packets| && Take(cfg, s.m, packets[0]).Served?
    ensures ApplyAll(s.m, EffectsOf(cfg, packets[..n + 1]))
         == ApplyAll(ServeNext(cfg, s, packets[0]).m, EffectsOf(cfg, packets[1..][..n]))
  {
    ServedEffect(cfg, s.m, packets[0]);
    EffectsFirst(cfg, packets, n + 1);
    ApplyFirst(s.m, EffectOf(cfg, packets[0]), EffectsOf(cfg, packets[1..][..n]));
  }

  // ---------------------------------------------------------------- what a read finds

  /** The effect leaves the `n` bytes at `addr` alone. */
  predicate Apart(e: Effect, addr: nat, n: nat)
  {
    match e
    case Poke(at, val) => at + |val| <= addr || addr + n <= at
    case RunOn(_) => false
    case StepOn => false
    case _ => true
  }

  /** The machine's run through the effects leaves the range alone at each of them; a run of the guest may do so too. */
  predicate AllKeep(m: Machine, es: seq<Effect>, addr: nat, n: nat)
    requires Riscv.Ok(m) && addr + n <= MEM_SIZE && forall e :: e in es ==> Sound(e)
    decreases |es|
  {
    es == [] || (Keeps(m, es[0], addr, n) && AllKeep(Apply(m, es[0]), es[1..], addr, n))
  }

  predicate Keeps(m: Machine, e: Effect, addr: nat, n: nat)
    requires Riscv.Ok(m) && addr + n <= MEM_SIZE && Sound(e)
  {
    Apart(e, addr, n) || ((e.RunOn? || e.StepOn?) && Apply(m, e).mem[addr..addr + n] == m.mem[addr..addr + n])
  }

  lemma ApartKeeps(m: Machine, e: Effect, addr: nat, n: nat)
    requires Riscv.Ok(m) && Sound(e) && Apart(e, addr, n) && addr + n <= MEM_SIZE
    ensures Apply(m, e).mem[addr..addr + n] == m.mem[addr..addr + n]
  {
    if e.Poke? {
      SamePart(m.mem, Apply(m, e).mem, addr, addr + n, addr, addr + n);
    }
  }

  lemma {:induction false} RangeKept(m: Machine, es: seq<Effect>, addr: nat, n: nat)
    requires Riscv.Ok(m) && addr + n <= MEM_SIZE && (forall e :: e in es ==> Sound(e)) && AllKeep(m, es, addr, n)
    ensures ApplyAll(m, es).mem[addr..addr + n] == m.mem[addr..addr + n]
    decreases |es|
  {
    if es != [] {
      assert es[0] in es && forall e :: e in es[1..] ==> e in es;
      if Apart(es[0], addr, n) { ApartKeeps(m, es[0], addr, n); }
      RangeKept(Apply(m, es[0]), es[1..], addr, n);
    }
  }

  lemma WriteShows(m: Machine, addr: u64, val: seq<byte>, es: seq<Effect>)
    requires Riscv.Ok(m) && addr + |val| <= MEM_SIZE && forall e :: e in es ==> Sound(e)
    requires AllKeep(Apply(m, Poke(addr, val)), es, addr, |val|) && Sendable(HexEncode(val))
    ensures MemRead(ApplyAll(Apply(m, Poke(addr, val)), es).mem, addr, |val|) == Hex(HexEncode(val))
  {
    RangeKept(Apply(m, Poke(addr, val)), es, addr, |val|);
    ReadBack(m.mem, addr, val);
    ReadWritten(ApplyAll(Apply(m, Poke(addr, val)), es).mem, addr, |val|, val);
  }

  lemma AllEffects(cfg: Config, s: State, packets: seq<Arrival>)
    requires Riscv.Ok(s.m) && Alive(Run(cfg, s, packets))
    ensures Run(cfg, s, packets).m == ApplyAll(s.m, EffectsOf(cfg, packets))
  {
    AllProcessed(cfg, s, packets);
    MachineIsFold(cfg, s, packets);
    assert packets[..|packets|] == packets;
  }

  lemma EffectsCons(cfg: Config, p: Arrival, rest: seq<Arrival>)
    ensures EffectsOf(cfg, [p] + rest) == [EffectOf(cfg, p)] + EffectsOf(cfg, rest)
  {
    assert ([p] + rest)[1..] == rest;
  }

  /** After a write and packets that leave its range alone, memory shows what was written. */
  lemma MemoryShows(cfg: Config, s: State, write: Arrival, between: seq<Arrival>, addr: u64, val: seq<byte>)
    requires Riscv.Ok(s.m) && EffectOf(cfg, write) == Poke(addr, val)
    requires AllKeep(Apply(s.m, Poke(addr, val)), EffectsOf(cfg, between), addr, |val|)
    requires Alive(Run(cfg, s, [write] + between)) && Sendable(HexEncode(val))
    ensures MemRead(Run(cfg, s, [write] + between).m.mem, addr, |val|) == Hex(HexEncode(val))
  {
    AllEffects(cfg, s, [write] + between);
    EffectsCons(cfg, write, between);
    ApplyFirst(s.m, Poke(addr, val), EffectsOf(cfg, between));
    WriteShows(s.m, addr, val, EffectsOf(cfg, between));
  }

  /** An accepted `m` for `n` bytes at `addr`. */
  predicate Reads(cfg: Config, read: Arrival, addr: u64, n: nat)
  {
    && Verifies(read.frame) && L.Request(read.frame) == 'm' as byte && cfg.ops.readMem
    && read.env.parsed && read.env.addr == addr && read.env.len == n
  }

  /** What such a packet adds to the output. */
  lemma ReadReplies(cfg: Config, t: State, read: Arrival, addr: u64, text: seq<byte>)
    requires Riscv.Ok(t.m) && Alive(t) && Reads(cfg, read, addr, read.env.len) && Sendable(text)
    requires MemRead(t.m.mem, addr, read.env.len) == Hex(text)
    ensures ServeNext(cfg, t, read).loop.out
         == t.loop.out + (if t.loop.noAck then [] else [Ack]) + [Reply(text)]
  {
    ReadServed(cfg, t.m, read);
    OutOfRead(cfg.ops, t.loop, L.Input(read.frame, L.Answer(true, text, ActNone)), text);
  }

  lemma OutOfRead(ops: L.Ops, s: L.State, i: L.Input, text: seq<byte>)
    requires Verifies(i.frame) && L.Request(i.frame) == 'm' as byte && ops.readMem
    requires i.answer == L.Answer(true, text, ActNone) && Sendable(text)
    ensures L.Step(ops, s, i).out == s.out + (if s.noAck then [] else [Ack]) + [Reply(text)]
  {
    assert L.Process(ops, i.frame, i.answer) == L.Send(text);
  }

  lemma {:induction false} SessionSnoc(cfg: Config, s: State, packets: seq<Arrival>, p: Arrival)
    requires Riscv.Ok(s.m) && Alive(Run(cfg, s, packets))
    ensures Run(cfg, s, packets + [p]) == ServeNext(cfg, Run(cfg, s, packets), p)
    decreases |packets|
  {
    var all := packets + [p];
    if packets == [] {
      assert all == [p] && all[1..] == [];
    } else {
      assert Alive(s) by { StaysStopped(cfg, s, packets); }
      assert all[0] == packets[0] && all[1..] == packets[1..] + [p];
      SessionSnoc(cfg, ServeNext(cfg, s, packets[0]), packets[1..], p);
    }
  }

  /**
   * In any session an `m` is answered with the bytes the last `M` or `X` to its range wrote, however
   * many packets came in between, as long as they, and the guest where they let it run, left the range
   * alone.
   */
  lemma ReadsLastWrite(cfg: Config, s: State, write: Arrival, between: seq<Arrival>, read: Arrival, addr: u64,
                       val: seq<byte>)
    requires Riscv.Ok(s.m) && EffectOf(cfg, write) == Poke(addr, val)
    requires AllKeep(Apply(s.m, Poke(addr, val)), EffectsOf(cfg, between), addr, |val|)
    requires Alive(Run(cfg, s, [write] + between)) && Sendable(HexEncode(val)) && Reads(cfg, read, addr, |val|)
    ensures var before := Run(cfg, s, [write] + between).loop;
      Run(cfg, s, [write] + between + [read]).loop.out
      == before.out + (if before.noAck then [] else [Ack]) + [Reply(HexEncode(val))]
  {
    MemoryShows(cfg, s, write, between, addr, val);
    SessionSnoc(cfg, s, [write] + between, read);
    ReadReplies(cfg, Run(cfg, s, [write] + between), read, addr, HexEncode(val));
  }

  /** An accepted `m` is answered by what the memory holds, and leaves the machine alone. */
  lemma ReadServed(cfg: Config, m: Machine, read: Arrival)
    requires Riscv.Ok(m)
    requires Verifies(read.frame) && L.Request(read.frame) == 'm' as byte && cfg.ops.readMem && read.env.parsed
    ensures Take(cfg, m, read)
         == Served(ToAnswer(MemText(MemRead(m.mem, read.env.addr, read.env.len)), ActNone), m)
  {
  }

  /** A session that goes on has processed every packet. */
  lemma {:induction false} AllProcessed(cfg: Config, s: State, packets: seq<Arrival>)
    requires Riscv.Ok(s.m) && Alive(Run(cfg, s, packets))
    ensures |Inputs(cfg, s, packets)| == |packets|
    decreases |packets|
  {
    if packets != [] {
      assert Alive(s) by { StaysStopped(cfg, s, packets); }
      if Take(cfg, s.m, packets[0]).Served? {
        AllProcessed(cfg, ServeNext(cfg, s, packets[0]), packets[1..]);
      } else {
        LostStays(cfg, s, packets);
      }
    }
  }

  lemma StaysStopped(cfg: Config, s: State, packets: seq<Arrival>)
    requires Riscv.Ok(s.m)
    ensures !Alive(s) ==> Run(cfg, s, packets) == s
  {
  }

  // ---------------------------------------------------------------- replies that can be framed

  /** The texts that are given bring no '#'. */
  predicate TextsWithoutHash(cfg: Config, p: Arrival)
  {
    HASH !in p.env.text && (cfg.desc.Some? ==> HASH !in cfg.desc.value)
  }

  predicate Clean(text: Option<seq<byte>>)
  {
    text.Some? ==> HASH !in text.value
  }

  lemma HexClean(s: seq<byte>)
    ensures HASH !in HexEncode(s)
  {
    HexEncodeDigits(s);
    assert !IsHexDigit(HASH);
  }

  lemma MemClean(reply: MemReply)
    requires reply.Hex? ==> HASH !in reply.text
    ensures Clean(MemText(reply))
  {
    if reply.Error? { ErrorWithoutHash(reply.code); }
    TextWithoutHash("OK");
  }

  lemma MemReadClean(mem: seq<byte>, addr: u64, len: u64)
    requires |mem| == MEM_SIZE
    ensures Clean(MemText(MemRead(mem, addr, len)))
  {
    if CheckBounds(addr, len) == InRange { HexClean(mem[addr..addr + len]); }
    MemClean(MemRead(mem, addr, len));
  }

  lemma WriteClean(reply: R.WriteReply)
    ensures HASH !in R.ReplyText(reply)
  {
    TextWithoutHash("OK");
    TextWithoutHash("E22");
    TextWithoutHash("E12");
    if reply.Failed? { ErrorWithoutHash(reply.code); }
  }

  lemma SupportedSize()
    ensures HASH !in Ascii("PacketSize=1024;")
  {
    TextWithoutHash("PacketSize=1024;");
  }

  lemma SupportedXfer()
    ensures HASH !in Ascii("qXfer:features:read+;")
  {
    TextWithoutHash("qXfer:features:read+;");
  }

  lemma SupportedNoAck()
    ensures HASH !in Ascii("QStartNoAckMode+")
  {
    TextWithoutHash("QStartNoAckMode+");
  }

  lemma JoinClean(a: seq<byte>, b: seq<byte>, c: seq<byte>)
    requires HASH !in a && HASH !in b && HASH !in c
    ensures HASH !in a + b + c
  {
  }

  lemma SupportedClean(desc: bool)
    ensures HASH !in Ascii("PacketSize=1024;") + (if desc then Ascii("qXfer:features:read+;") else [])
                     + Ascii("QStartNoAckMode+")
  {
    SupportedSize();
    SupportedXfer();
    SupportedNoAck();
    JoinClean(Ascii("PacketSize=1024;"), if desc then Ascii("qXfer:features:read+;") else [],
              Ascii("QStartNoAckMode+"));
  }

  lemma XferClean(cfg: Config, args: Option<seq<byte>>, env: Env)
    requires cfg.desc.Some? ==> HASH !in cfg.desc.value
    ensures Clean(XferQuery(cfg, args, env))
  {
    if cfg.desc.Some? { X.ReplySendable(cfg.desc.value, env.offset, env.length); }
  }

  lemma QueryFixed()
    ensures HASH !in Ascii("OK") && HASH !in Ascii("1") && HASH !in Ascii("l")
  {
    TextWithoutHash("OK");
    TextWithoutHash("1");
    TextWithoutHash("l");
  }

  lemma QueryClean(cfg: Config, args: seq<byte>, env: Env)
    requires HASH !in env.text && (cfg.desc.Some? ==> HASH !in cfg.desc.value)
    ensures Clean(Query(cfg, args, env))
  {
    QueryFixed();
    SupportedClean(cfg.desc.Some?);
    XferClean(cfg, Rest(args, COLON), env);
  }

  lemma ReadOneClean(m: Machine, env: Env)
    requires Riscv.Ok(m)
    ensures Clean(ReadOne(m, env))
  {
    if 0 <= env.regno < EMU_REGS { HexClean(RegBytes(m, env.regno)); }
    ErrorWithoutHash(EFAULT);
  }

  lemma RegistersClean(m: Machine, args: seq<byte>, env: Env)
    requires Riscv.Ok(m)
    ensures Clean(WriteOne(m, args, env).text) && Clean(WriteRegs(m, args, env).text)
  {
    ErrorWithoutHash(EFAULT);
    TextWithoutHash("OK");
    WriteClean(R.RegWrite(EmuWidths(), RegsOf(m), args, env.hasMemory, [], 0).0);
  }

  lemma FixedClean(ops: L.Ops)
    ensures HASH !in Ascii("OK") && HASH !in Ascii("E22") && HASH !in VContText(ops)
  {
    TextWithoutHash("OK");
    TextWithoutHash("E22");
    TextWithoutHash("vCont;");
    TextWithoutHash("s;");
    TextWithoutHash("c;");
  }

  lemma AnswerMemoryClean(cfg: Config, m: Machine, p: Arrival)
    requires Riscv.Ok(m)
    requires var r := L.Request(p.frame); r == 'm' as byte || r == 'M' as byte || r == 'X' as byte
    ensures Clean(AnswerTo(cfg, m, p).text)
  {
    MemReadClean(m.mem, p.env.addr, p.env.len);
    MemClean(MemWrite(m.mem, p.env.addr, p.env.len, Content(p.frame)).0);
    MemClean(XWrite(m.mem, Payload(p.frame), p.env.addr, p.env.len).0);
  }

  lemma AnswerReadsClean(cfg: Config, m: Machine, p: Arrival)
    requires Riscv.Ok(m) && (L.Request(p.frame) == 'g' as byte || L.Request(p.frame) == 'p' as byte)
    ensures Clean(AnswerTo(cfg, m, p).text)
  {
    if L.Request(p.frame) == 'g' as byte {
      HexClean(R.Flatten(RegsOf(m), EMU_REGS));
    } else {
      ReadOneClean(m, p.env);
    }
  }

  lemma AnswerWritesClean(cfg: Config, m: Machine, p: Arrival)
    requires Riscv.Ok(m) && (L.Request(p.frame) == 'G' as byte || L.Request(p.frame) == 'P' as byte)
    ensures Clean(AnswerTo(cfg, m, p).text)
  {
    RegistersClean(m, L.Arguments(p.frame), p.env);
  }

  lemma AnswerClean(cfg: Config, m: Machine, p: Arrival)
    requires Riscv.Ok(m) && TextsWithoutHash(cfg, p)
    ensures Clean(AnswerTo(cfg, m, p).text)
  {
    var r := L.Request(p.frame);
    if r == 'm' as byte || r == 'M' as byte || r == 'X' as byte {
      AnswerMemoryClean(cfg, m, p);
    } else if r == 'g' as byte || r == 'p' as byte {
      AnswerReadsClean(cfg, m, p);
    } else if r == 'G' as byte || r == 'P' as byte {
      AnswerWritesClean(cfg, m, p);
    } else {
      QueryClean(cfg, L.Arguments(p.frame), p.env);
      FixedClean(cfg.ops);
    }
  }

  lemma TakeClean(cfg: Config, m: Machine, p: Arrival)
    requires Riscv.Ok(m) && TextsWithoutHash(cfg, p) && Take(cfg, m, p).Served?
    ensures HASH !in Take(cfg, m, p).answer.reply
  {
    AnswerClean(cfg, m, p);
  }

  /** Whatever a session sends can be framed, if the description and the two texts that are given can. */
  lemma {:induction false} SessionHashFree(cfg: Config, s: State, packets: seq<Arrival>)
    requires Riscv.Ok(s.m) && HashFree(s.loop.out) && forall p :: p in packets ==> TextsWithoutHash(cfg, p)
    ensures HashFree(Run(cfg, s, packets).loop.out)
    decreases |packets|
  {
    if packets != [] && Alive(s) {
      var p := packets[0];
      assert p in packets && forall q :: q in packets[1..] ==> q in packets;
      if Take(cfg, s.m, p).Served? {
        TakeClean(cfg, s.m, p);
        L.StepHashFree(cfg.ops, s.loop, L.Input(p.frame, Take(cfg, s.m, p).answer));
        SessionHashFree(cfg, ServeNext(cfg, s, p), packets[1..]);
      } else {
        LostStays(cfg, s, packets);
      }
    }
  }

  // ---------------------------------------------------------------- the session as it runs

  /** `text` was sent, if there is one that fits; `ok` tells. */
  ghost predicate Sends(text: Option<seq<byte>>, before: seq<Out>, after: seq<Out>, ok: bool)
  {
    var sent := text.Some? && Sendable(text.value);
    ok == sent && after == before + if sent then [Reply(text.value)] else []
  }

  /** The registers read one by one through `emu_read_reg`. */
  method LoadRegs(e: Emu) returns (t: R.Target)
    requires e.Valid()
    ensures fresh(t) && t.Valid() && t.widths == EmuWidths() && t.codes == [] && t.calls == 0 && t.regs == RegsOf(e.m)
  {
    var regs: seq<seq<byte>> := [];
    for i := 0 to EMU_REGS
      invariant |regs| == i && forall j :: 0 <= j < i ==> regs[j] == RegBytes(e.m, j)
    {
      var ret, value, wild := e.ReadReg(i);
      regs := regs + [value];
    }
    assert regs == RegsOf(e.m);
    t := new R.Target(EmuWidths(), [], regs);
  }

  /** The registers written one by one through `emu_write_reg`. */
  method StoreRegs(e: Emu, regs: seq<seq<byte>>)
    requires e.Valid() && R.WellSized(EmuWidths(), regs)
    modifies e`m, e`pc, e.x
    ensures e.Valid() && e.m == WithRegs(old(e.m), regs, EMU_REGS)
  {
    ghost var m := e.m;
    for i := 0 to EMU_REGS
      invariant e.Valid() && e.m == WithRegs(m, regs, i)
    {
      assert |regs[i]| == REGSZ;
      var ret, wild := e.WriteReg(i, regs[i]);
    }
  }

  /** For the emulator's registers the reply to `g` is their hex, whatever was in the buffer. */
  lemma RegsText(m: Machine, init: seq<byte>)
    requires Riscv.Ok(m) && |init| == MAX_SEND_PACKET_SIZE && RR.Fits(EmuWidths(), MAX_SEND_PACKET_SIZE)
    ensures var text := HexEncode(R.Flatten(RegsOf(m), EMU_REGS));
      Sendable(text) && RR.RegText(RR.RegRead(init, EmuWidths(), RegsOf(m), [], 0)) == Some(text)
  {
    EmuLayout();
    NoFailures(0, EMU_REGS);
    RR.UniformReply(init, EmuWidths(), RegsOf(m));
    R.FlattenLength(EmuWidths(), RegsOf(m), EMU_REGS);
  }

  class Stub {
    const cfg: Config
    const e: Emu
    const conn: Conn

    constructor (cfg: Config, e: Emu, conn: Conn)
      ensures this.cfg == cfg && this.e == e && this.conn == conn
    {
      this.cfg, this.e, this.conn := cfg, e, conn;
    }

    ghost function View(status: L.Status): L.State
      reads conn
    {
      L.State(conn.noAckMode, conn.failureCount, conn.out, status)
    }

    /** `g` */
    method ReadAll()
      requires e.Valid()
      modifies conn`out
      ensures Sends(Some(HexEncode(R.Flatten(RegsOf(e.m), EMU_REGS))), old(conn.out), conn.out, true)
    {
      EmuLayout();
      var t := LoadRegs(e);
      var ok, init := RR.ProcessRegRead(t, conn);
      RegsText(e.m, init);
    }

    /** `G` */
    method WriteAll(args: seq<byte>, env: Env)
      requires e.Valid()
      modifies conn`out, e`m, e`pc, e.x
      ensures var a := WriteRegs(old(e.m), args, env);
        e.Valid() && e.m == a.m && conn.out == old(conn.out) + [Reply(a.text.value)]
    {
      WrittenSized(e.m, args, env);
      var t := LoadRegs(e);
      R.ProcessRegWrite(t, conn, args, env.hasMemory);
      StoreRegs(e, t.regs);
    }

    /** `p` */
    method ReadSingle(env: Env) returns (ok: bool)
      requires e.Valid()
      modifies conn`out
      ensures Sends(ReadOne(e.m, env), old(conn.out), conn.out, ok)
    {
      if !env.parsed {
        return false;
      }
      var ret, value, wild := e.ReadReg(env.regno);
      if wild {
        return false;
      }
      if ret != 0 {
        conn.SendError(ret);
        return true;
      }
      ok := conn.SendHex(value);
    }

    /** `P` */
    method WriteSingle(args: seq<byte>, env: Env) returns (ok: bool)
      requires e.Valid()
      modifies conn`out, e`m, e`pc, e.x
      ensures var a := WriteOne(old(e.m), args, env);
        e.Valid() && Sends(a.text, old(conn.out), conn.out, ok) && (ok ==> e.m == a.m)
    {
      var dataStr := Rest(args, EQUALS);
      if !env.parsed || dataStr == None || |dataStr.value| != 2 * REGSZ {
        return false;
      }
      var data := new byte[REGSZ];
      StrToHex(dataStr.value, data, 0, REGSZ);
      assert data[..] == HexDecode(dataStr.value, REGSZ);
      var ret, wild := e.WriteReg(env.regno, data[..]);
      if wild {
        return false;
      }
      if ret != 0 {
        conn.SendError(ret);
        return true;
      }
      conn.SendFixed("OK");
      return true;
    }

    /** `z` */
    method DelBreakPoint(env: Env)
      requires e.Valid()
      modifies conn`out, e`m, e`bpIsSet, e`bpAddr
      ensures var (ok, d) := DeleteBreakpoint(old(e.m), env.addr, env.software);
        && e.Valid() && e.m == d
        && conn.out == old(conn.out) + [Reply(if ok then Ascii("OK") else Ascii("E22"))]
    {
      var ok := e.DelBp(env.addr, env.software);
      conn.SendFixed(if ok then "OK" else "E22");
    }

    /** `Z` */
    method SetBreakPoint(env: Env)
      requires e.Valid()
      modifies conn`out, e`m, e`bpIsSet, e`bpAddr
      ensures var (ok, d) := SetBreakpoint(old(e.m), env.addr, env.software);
        && e.Valid() && e.m == d
        && conn.out == old(conn.out) + [Reply(if ok then Ascii("OK") else Ascii("E22"))]
    {
      var ok := e.SetBp(env.addr, env.software);
      if ok {
        conn.SendFixed("OK");
      } else {
        conn.SendFixed("E22");
      }
    }

    /** `process_xfer` up to its numbers. */
    method ProcessXferQuery(args: Option<seq<byte>>, env: Env) returns (ok: bool)
      modifies conn`out
      ensures Sends(XferQuery(cfg, args, env), old(conn.out), conn.out, ok)
    {
      if args == None {
        return false;
      }
      if L.NameOf(args.value, COLON) == Ascii("features") && cfg.desc.Some? {
        if !env.parsed {
          return false;
        }
        X.ReplySendable(cfg.desc.value, env.offset, env.length);
        ok := X.ProcessXfer(conn, cfg.desc.value, env.offset, env.length);
      } else {
        ok := conn.SendPktStr([]);
      }
    }

    /** `process_query` */
    method ProcessQuery(args: seq<byte>, env: Env) returns (ok: bool)
      modifies conn`out
      ensures Sends(Query(cfg, args, env), old(conn.out), conn.out, ok)
    {
      ok := true;
      var name := L.NameOf(args, COLON);
      if name == Ascii("C") {
        ok := conn.SendPktStr(if cfg.ops.getCpu then env.text else []);
      } else if name == Ascii("Supported") {
        PlainText("PacketSize=1024;");
        PlainText("qXfer:features:read+;");
        PlainText("QStartNoAckMode+");
        ok := conn.SendPktStr(Ascii("PacketSize=1024;")
                              + (if cfg.desc.Some? then Ascii("qXfer:features:read+;") else [])
                              + Ascii("QStartNoAckMode+"));
      } else if name == Ascii("Attached") {
        conn.SendFixed("1");
      } else if name == Ascii("Xfer") {
        ok := ProcessXferQuery(Rest(args, COLON), env);
      } else if name == Ascii("Symbol") {
        conn.SendFixed("OK");
      } else if name == Ascii("fThreadInfo") {
        ok := conn.SendPktStr(env.text);
      } else if name == Ascii("sThreadInfo") {
        conn.SendFixed("l");
      } else {
        ok := conn.SendPktStr([]);
      }
    }

    /** `m`, `M` and `X`. */
    method AnswerMemory(p: Arrival, request: byte) returns (ok: bool)
      requires e.Valid() && request == L.Request(p.frame)
      requires || (request == 'm' as byte && cfg.ops.readMem)
               || ((request == 'M' as byte || request == 'X' as byte) && cfg.ops.writeMem)
      modifies conn`out, e, e.mem
      ensures var a := AnswerTo(cfg, old(e.m), p);
        Sends(a.text, old(conn.out), conn.out, ok) && (ok ==> e.Valid() && e.m == a.m)
    {
      if !p.env.parsed {
        return false;
      }
      ghost var m := e.m;
      if request == 'm' as byte {
        MemTextSendable(MemRead(m.mem, p.env.addr, p.env.len));
        ok := ProcessMemRead(e, conn, p.env.addr, p.env.len);
      } else if request == 'M' as byte {
        MemTextSendable(MemWrite(m.mem, p.env.addr, p.env.len, Content(p.frame)).0);
        ok := ProcessMemWrite(e, conn, p.env.addr, p.env.len, Content(p.frame));
      } else {
        ok := AnswerXWrite(p);
      }
    }

    /** `X`, in the packet's own bytes: the '#' has been overwritten. */
    method AnswerXWrite(p: Arrival) returns (ok: bool)
      requires e.Valid() && L.Request(p.frame) == 'X' as byte
      modifies conn`out, e, e.mem
      ensures var (reply, mem) := XWrite(old(e.m).mem, Payload(p.frame), p.env.addr, p.env.len);
        && Sends(MemText(reply), old(conn.out), conn.out, ok)
        && (ok ==> e.Valid() && e.m == old(e.m).(mem := mem))
    {
      var packetEnd := |p.frame| - 3;
      var data := new byte[|p.frame| + 1](
        i requires 0 <= i => if i < |p.frame| && i != packetEnd then p.frame[i] else 0);
      assert data[2..packetEnd] == Payload(p.frame);
      MemTextSendable(XWrite(e.m.mem, Payload(p.frame), p.env.addr, p.env.len).0);
      ok := ProcessMemXwrite(e, conn, data, packetEnd, p.env.addr, p.env.len);
    }

    /** `g`, `G`, `p` and `P`. */
    method AnswerRegisters(p: Arrival, request: byte) returns (ok: bool)
      requires e.Valid() && request == L.Request(p.frame)
      requires || ((request == 'g' as byte || request == 'p' as byte) && cfg.ops.readReg)
               || ((request == 'G' as byte || request == 'P' as byte) && cfg.ops.writeReg)
      modifies conn`out, e`m, e`pc, e.x
      ensures var a := AnswerTo(cfg, old(e.m), p);
        Sends(a.text, old(conn.out), conn.out, ok) && (ok ==> e.Valid() && e.m == a.m)
    {
      ok := true;
      if request == 'g' as byte {
        ReadAll();
      } else if request == 'p' as byte {
        ok := ReadSingle(p.env);
      } else if request == 'G' as byte {
        WriteTextSendable(e.m, L.Arguments(p.frame), p.env);
        WriteAll(L.Arguments(p.frame), p.env);
      } else {
        ok := WriteSingle(L.Arguments(p.frame), p.env);
      }
    }

    /** `z` and `Z`. */
    method AnswerBreakpoints(p: Arrival, request: byte) returns (ok: bool)
      requires e.Valid() && request == L.Request(p.frame)
      requires (request == 'z' as byte && cfg.ops.delBp) || (request == 'Z' as byte && cfg.ops.setBp)
      modifies conn`out, e`m, e`bpIsSet, e`bpAddr
      ensures var a := AnswerTo(cfg, old(e.m), p);
        Sends(a.text, old(conn.out), conn.out, ok) && (ok ==> e.Valid() && e.m == a.m)
    {
      if !p.env.parsed {
        return false;
      }
      if request == 'z' as byte {
        DelBreakPoint(p.env);
      } else {
        SetBreakPoint(p.env);
      }
      return true;
    }

    /** `H` and `q`. */
    method AnswerOthers(p: Arrival, request: byte) returns (ok: bool)
      requires e.Valid() && request == L.Request(p.frame)
      requires (request == 'H' as byte && cfg.ops.setCpu) || request == 'q' as byte
      modifies conn`out
      ensures Sends(AnswerTo(cfg, e.m, p).text, old(conn.out), conn.out, ok) && AnswerTo(cfg, e.m, p).m == e.m
    {
      if request == 'q' as byte {
        ok := ProcessQuery(L.Arguments(p.frame), p.env);
      } else {
        ok := SetCpu(L.Arguments(p.frame), p.env);
      }
    }

    /** `process_set_cpu` */
    method SetCpu(args: seq<byte>, env: Env) returns (ok: bool)
      modifies conn`out
      ensures Sends(if args != [] && args[0] == 'g' as byte && !env.parsed then None else Some(Ascii("OK")),
                    old(conn.out), conn.out, ok)
    {
      if args != [] && args[0] == 'g' as byte && !env.parsed {
        return false;
      }
      conn.SendFixed("OK");
      return true;
    }

    /** The requests whose handlers form their own reply; `E01` when the operation is missing. */
    method ProcessAnswered(p: Arrival, request: byte) returns (ok: bool)
      requires e.Valid() && request == L.Request(p.frame) && Forms(request)
      modifies conn`out, e, e.x, e.mem
      ensures var a := AnswerTo(cfg, old(e.m), p);
        var h := L.Answered(Present(cfg.ops, request), ToAnswer(a.text, ActNone));
        && ok == h.Handled? && conn.out == old(conn.out) + (if ok then [Reply(h.reply.value)] else [])
        && (ok ==> e.Valid() && e.m == a.m)
    {
      if !Present(cfg.ops, request) {
        conn.SendFixed("E01");
        return true;
      }
      if request == 'm' as byte || request == 'M' as byte || request == 'X' as byte {
        ok := AnswerMemory(p, request);
      } else if request == 'z' as byte || request == 'Z' as byte {
        ok := AnswerBreakpoints(p, request);
      } else if request == 'H' as byte || request == 'q' as byte {
        ok := AnswerOthers(p, request);
      } else {
        ok := AnswerRegisters(p, request);
      }
    }

    /** `process_cont` and `process_stepi` */
    method ProcessResume(present: bool, event: Event) returns (r: Event)
      requires event == EventCont || event == EventStep
      modifies conn`out
      ensures var h := L.Resume(present, event);
        r == h.event && conn.out == old(conn.out) + if h.reply == None then [] else [Reply(h.reply.value)]
    {
      if present {
        return event;
      }
      conn.SendFixed("E01");
      return EventNone;
    }

    /** `process_general_set` */
    method ProcessGeneralSet(args: seq<byte>)
      modifies conn`out, conn`noAckMode
      ensures conn.noAckMode == (old(conn.noAckMode) || L.GeneralSet(args).startNoAck)
      ensures conn.out == old(conn.out) + [Reply(L.GeneralSet(args).reply.value)]
    {
      if L.NameOf(args, COLON) == Ascii("StartNoAckMode") {
        conn.noAckMode := true;
        conn.SendFixed("OK");
      } else {
        var _ := conn.SendPktStr([]);
      }
    }

    /** `process_vpacket` */
    method ProcessVPacket(args: seq<byte>) returns (ok: bool, event: Event)
      modifies conn`out
      ensures match L.VPacket(cfg.ops, args, ToAnswer(Some(VContText(cfg.ops)), ActNone))
        case Abort => !ok && conn.out == old(conn.out)
        case Handled(reply, ev, start) =>
          && ok && event == ev && !start
          && conn.out == old(conn.out) + if reply == None then [] else [Reply(reply.value)]
    {
      ok, event := true, EventNone;
      var name := L.NameOf(args, L.SEMICOLON);
      if name == Ascii("Cont") {
        if L.SEMICOLON !in args {
          return false, EventNone;
        }
        event := ProcessVCont(args[|name| + 1..]);
      } else if name == Ascii("Cont?") {
        PlainText("vCont;");
        ok := conn.SendPktStr(VContText(cfg.ops));
      } else {
        ok := conn.SendPktStr([]);
      }
    }

    /** `process_vcont` */
    method ProcessVCont(args: seq<byte>) returns (event: Event)
      modifies conn`out
      ensures var h := if args != [] && args[0] == 'c' as byte then L.Resume(cfg.ops.cont, EventCont)
                       else if args != [] && args[0] == 's' as byte then L.Resume(cfg.ops.stepi, EventStep)
                       else L.Send(Ascii("E01"));
        event == h.event && conn.out == old(conn.out) + if h.reply == None then [] else [Reply(h.reply.value)]
    {
      event := EventNone;
      if args != [] && args[0] == 'c' as byte {
        event := ProcessResume(cfg.ops.cont, EventCont);
      } else if args != [] && args[0] == 's' as byte {
        event := ProcessResume(cfg.ops.stepi, EventStep);
      } else {
        conn.SendFixed("E01");
      }
    }

    /** `gdbstub_process_packet` */
    method ProcessPacket(p: Arrival) returns (ok: bool, event: Event)
      requires e.Valid()
      modifies conn`out, conn`noAckMode, e, e.x, e.mem
      ensures match Dispatched(cfg, old(e.m), p)
        case Abort => !ok && conn.out == old(conn.out) && conn.noAckMode == old(conn.noAckMode)
        case Handled(reply, ev, start) =>
          && ok && event == ev && conn.noAckMode == (old(conn.noAckMode) || start)
          && conn.out == old(conn.out) + (if reply == None then [] else [Reply(reply.value)])
          && e.Valid() && e.m == AnswerTo(cfg, old(e.m), p).m
    {
      var request := L.Request(p.frame);
      ok, event := true, EventNone;
      if Forms(request) {
        ok := ProcessAnswered(p, request);
      } else if request == 'c' as byte {
        event := ProcessResume(cfg.ops.cont, EventCont);
      } else if request == 's' as byte {
        event := ProcessResume(cfg.ops.stepi, EventStep);
      } else if request == 'v' as byte {
        ok, event := ProcessVPacket(L.Arguments(p.frame));
      } else if request == 'Q' as byte {
        ProcessGeneralSet(L.Arguments(p.frame));
      } else if request == '?' as byte {
        conn.SendFixed("S05");
      } else if request == 'D' as byte {
        conn.SendFixed("OK");
        event := EventDetach;
      } else if request == 'T' as byte {
        conn.SendFixed("OK");
      } else {
        ok := conn.SendPktStr([]);
      }
    }

    /** `gdbstub_handle_event` */
    method HandleEvent(event: Event, env: Env) returns (act: Action, lost: bool)
      requires e.Valid()
      modifies e, e.x, e.mem
      ensures match Act(old(e.m), event, env)
        case Lost => lost
        case Acted(a, m) => !lost && act == a && e.Valid() && e.m == m
    {
      act, lost := ActNone, false;
      match event {
        case EventCont => act, lost := e.Cont(env.haltAfter);
        case EventStep => act, lost := e.StepInst();
        case EventDetach => act := ActShutdown;
        case EventNone =>
      }
    }

    /** The rest of the loop body once the checksum was right and the packet acknowledged. */
    method HandleAccepted(p: Arrival) returns (status: L.Status, lost: bool)
      requires e.Valid() && Verifies(p.frame)
      modifies conn, e, e.x, e.mem
      ensures match Serve(cfg, old(e.m), p)
        case LostIt => lost
        case Served(answer, m) =>
          && !lost && View(status) == L.Accept(cfg.ops, old(View(L.Running)), L.Input(p.frame, answer))
          && (status != L.Aborted ==> e.Valid() && e.m == m)
    {
      conn.failureCount := 0;
      ActIgnoredAll(cfg.ops, p.frame, ToAnswer(AnswerTo(cfg, e.m, p).text, ActNone));
      var ok, event := ProcessPacket(p);
      if !ok {
        return L.Aborted, false;
      }
      var act;
      act, lost := HandleEvent(event, p.env);
      status := if act == ActShutdown then L.Returned(true) else L.Running;
      if !lost && act == ActResume {
        conn.SendFixed("S05");
      }
    }

    /** The loop body of `gdbstub_run` for a popped packet. */
    method HandlePacket(p: Arrival) returns (status: L.Status, lost: bool)
      requires e.Valid()
      modifies conn, e, e.x, e.mem
      ensures var s := ServeNext(cfg, State(old(View(L.Running)), old(e.m), false), p);
        lost == s.lost && (!lost ==> View(status) == s.loop && (status != L.Aborted ==> e.Valid() && e.m == s.m))
    {
      var csumOk := CsumVerify(p.frame + [0], |p.frame| - 1);
      assert (p.frame + [0])[..|p.frame|] == p.frame;
      if !conn.noAckMode {
        conn.SendAck(csumOk);
      }
      if !csumOk {
        conn.failureCount := conn.failureCount + 1;
        status := if conn.failureCount >= L.CONN_MAX_FAILURES then L.Returned(false) else L.Running;
        return status, false;
      }
      status, lost := HandleAccepted(p);
    }

    /** `gdbstub_run` on the packets it will pop. */
    method RunLoop(packets: seq<Arrival>) returns (status: L.Status, lost: bool)
      requires e.Valid()
      modifies conn, e, e.x, e.mem
      ensures var s := Run(cfg, State(old(View(L.Running)), old(e.m), false), packets);
        lost == s.lost && (!lost ==> View(status) == s.loop && (status != L.Aborted ==> e.Valid() && e.m == s.m))
    {
      ghost var start := State(View(L.Running), e.m, false);
      status, lost := L.Running, false;
      var i := 0;
      while i < |packets|
        invariant 0 <= i <= |packets| && e.Valid() && !lost && status == L.Running
        invariant Run(cfg, State(View(L.Running), e.m, false), packets[i..]) == Run(cfg, start, packets)
      {
        ghost var s := State(View(L.Running), e.m, false);
        assert packets[i..][0] == packets[i] && packets[i..][1..] == packets[i + 1..];
        status, lost := HandlePacket(packets[i]);
        StaysStopped(cfg, ServeNext(cfg, s, packets[i]), packets[i + 1..]);
        if lost || status != L.Running {
          return;
        }
        i := i + 1;
      }
      assert packets[i..] == [];
    }
  }

  lemma ActIgnoredAll(ops: L.Ops, frame: L.Frame, a: L.Answer)
    ensures forall act :: L.Process(ops, frame, a.(act := act)) == L.Process(ops, frame, a)
  {
    forall act ensures L.Process(ops, frame, a.(act := act)) == L.Process(ops, frame, a) {
      ActIgnored(ops, frame, a, act);
    }
  }

  /** The requests whose handlers form their own reply. */
  predicate Forms(r: byte)
  {
    Changes(r) || r == 'g' as byte || r == 'p' as byte || r == 'm' as byte || r == 'q' as byte || r == 'H' as byte
  }

  /** The operation the request needs is there. */
  predicate Present(ops: L.Ops, r: byte)
  {
    if r == 'g' as byte || r == 'p' as byte then ops.readReg
    else if r == 'G' as byte || r == 'P' as byte then ops.writeReg
    else if r == 'm' as byte then ops.readMem
    else if r == 'M' as byte || r == 'X' as byte then ops.writeMem
    else if r == 'z' as byte then ops.delBp
    else if r == 'Z' as byte then ops.setBp
    else if r == 'H' as byte then ops.setCpu
    else true
  }

  lemma MemTextSendable(reply: MemReply)
    requires reply.Hex? ==> Sendable(reply.text)
    ensures MemText(reply).Some? ==> Sendable(MemText(reply).value)
  {
    if reply.Error? { ErrorTextShort(reply.code); }
  }

  lemma WriteTextSendable(m: Machine, args: seq<byte>, env: Env)
    requires Riscv.Ok(m)
    ensures WriteRegs(m, args, env).text.Some? && Sendable(WriteRegs(m, args, env).text.value)
  {
    var reply := R.RegWrite(EmuWidths(), RegsOf(m), args, env.hasMemory, [], 0).0;
    if reply.Failed? { ErrorTextShort(reply.code); }
  }
}
