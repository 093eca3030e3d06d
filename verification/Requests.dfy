/**
 * What the stub of src/gdbstub.c does for every request, from the bytes of the packet: the reply, the
 * machine, and whether the loop goes on. Each row is about one packet popped in any session with the
 * emulator as the target.
 */
module Requests {
  import opened Bytes
  import opened Codec
  import opened Connection
  import opened Protocol
  import opened Stepping
  import opened Riscv
  import opened Emulator
  import opened Session
  import L = MainLoop

  /** A session in which a packet can be popped. */
  predicate Ready(s: State)
  {
    Riscv.Ok(s.m) && Alive(s)
  }

  /** The output with the acknowledgment of an accepted packet. */
  function Acked(s: State): seq<Out>
  {
    s.loop.out + if s.loop.noAck then [] else [Ack]
  }

  /** The packet has been acknowledged and answered, and the loop goes on with the machine `m`. */
  function Replies(s: State, text: seq<byte>, m: Machine): State
  {
    State(L.State(s.loop.noAck, 0, Acked(s) + [Reply(text)], L.Running), m, false)
  }

  /** An assertion has failed: nothing but the acknowledgment is out. */
  function Fails(s: State): State
  {
    State(L.State(s.loop.noAck, 0, Acked(s), L.Aborted), s.m, false)
  }

  /** An accepted packet with this request character. */
  predicate Asks(p: Arrival, request: char)
  {
    |p.frame| > 4 && Verifies(p.frame) && p.frame[1] as int == request as int
  }

  /** Its bytes behind the request, up to the '#'. */
  function Body(p: Arrival): seq<byte>
    requires |p.frame| > 4
  {
    p.frame[2..|p.frame| - 3]
  }

  // ---------------------------------------------------------------- from the dispatcher to the session

  lemma AnsweredServed(cfg: Config, s: State, p: Arrival, text: seq<byte>, start: bool)
    requires Ready(s) && Verifies(p.frame) && Dispatched(cfg, s.m, p) == L.Handled(Some(text), EventNone, start)
    ensures ServeNext(cfg, s, p)
         == State(L.State(s.loop.noAck || start, 0, Acked(s) + [Reply(text)], L.Running),
                  AnswerTo(cfg, s.m, p).m, false)
  {
    ActIgnored(cfg.ops, p.frame, ToAnswer(AnswerTo(cfg, s.m, p).text, ActNone), ActNone);
  }

  lemma AbortServed(cfg: Config, s: State, p: Arrival)
    requires Ready(s) && Verifies(p.frame) && Dispatched(cfg, s.m, p) == L.Abort
    ensures ServeNext(cfg, s, p) == Fails(s)
  {
  }

  /** A continue that has come to `e`. */
  function Continued(s: State, e: Ended<Machine, Reason>): State
  {
    if e.stop == WildAccess then s.(lost := true)
    else if e.stop == ToHost then State(L.State(s.loop.noAck, 0, Acked(s), L.Returned(true)), e.m, false)
    else Replies(s, Ascii("S05"), e.m)
  }

  /** A step that has come to `o`. */
  function Stepped(s: State, o: Riscv.Effect): State
  {
    if o.Wild? then s.(lost := true) else Replies(s, Ascii("S05"), o.m)
  }

  lemma ContServed(cfg: Config, s: State, p: Arrival)
    requires Ready(s) && Verifies(p.frame) && Dispatched(cfg, s.m, p) == L.Handled(None, EventCont, false)
    requires AnswerTo(cfg, s.m, p).m == s.m
    ensures ServeNext(cfg, s, p) == Continued(s, Riscv.Continue(s.m, p.env.haltAfter))
  {
    var a := ToAnswer(AnswerTo(cfg, s.m, p).text, ActNone);
    ActIgnored(cfg.ops, p.frame, a, ActShutdown);
    ActIgnored(cfg.ops, p.frame, a, ActResume);
  }

  lemma StepServed(cfg: Config, s: State, p: Arrival)
    requires Ready(s) && Verifies(p.frame) && Dispatched(cfg, s.m, p) == L.Handled(None, EventStep, false)
    requires AnswerTo(cfg, s.m, p).m == s.m
    ensures ServeNext(cfg, s, p) == Stepped(s, StepI(s.m))
  {
    ActIgnored(cfg.ops, p.frame, ToAnswer(AnswerTo(cfg, s.m, p).text, ActNone), ActResume);
  }

  // ---------------------------------------------------------------- running the target

  /** `c` */
  lemma ContinueRequest(cfg: Config, s: State, p: Arrival)
    requires Ready(s) && Asks(p, 'c')
    ensures ServeNext(cfg, s, p) ==
      if cfg.ops.cont then Continued(s, Riscv.Continue(s.m, p.env.haltAfter)) else Replies(s, Ascii("E01"), s.m)
  {
    if cfg.ops.cont { ContServed(cfg, s, p); } else { AnsweredServed(cfg, s, p, Ascii("E01"), false); }
  }

  /** `s` */
  lemma StepRequest(cfg: Config, s: State, p: Arrival)
    requires Ready(s) && Asks(p, 's')
    ensures ServeNext(cfg, s, p) ==
      if cfg.ops.stepi then Stepped(s, StepI(s.m)) else Replies(s, Ascii("E01"), s.m)
  {
    if cfg.ops.stepi { StepServed(cfg, s, p); } else { AnsweredServed(cfg, s, p, Ascii("E01"), false); }
  }

  /** `?`, `T`, and any character that is no request. */
  lemma FixedRequests(cfg: Config, s: State, p: Arrival)
    requires Ready(s)
    ensures Asks(p, '?') ==> ServeNext(cfg, s, p) == Replies(s, Ascii("S05"), s.m)
    ensures Asks(p, 'T') ==> ServeNext(cfg, s, p) == Replies(s, Ascii("OK"), s.m)
  {
    if Asks(p, '?') { AnsweredServed(cfg, s, p, Ascii("S05"), false); }
    if Asks(p, 'T') { AnsweredServed(cfg, s, p, Ascii("OK"), false); }
  }

  /** `D`: answered, and the loop returns true. */
  lemma DetachRequest(cfg: Config, s: State, p: Arrival)
    requires Ready(s) && Asks(p, 'D')
    ensures ServeNext(cfg, s, p)
         == State(L.State(s.loop.noAck, 0, Acked(s) + [Reply(Ascii("OK"))], L.Returned(true)), s.m, false)
  {
    DetachDispatch(cfg, s.m, p);
    ActIgnored(cfg.ops, p.frame, ToAnswer(None, ActNone), ActShutdown);
  }

  lemma DetachDispatch(cfg: Config, m: Machine, p: Arrival)
    requires Riscv.Ok(m) && L.Request(p.frame) == 'D' as byte
    ensures Dispatched(cfg, m, p) == L.Handled(Some(Ascii("OK")), EventDetach, false)
    ensures AnswerTo(cfg, m, p) == Answering(None, m)
  {
  }

  // ---------------------------------------------------------------- names in packets

  /** The bytes before the first `sep`, NUL or the end are `name`. */
  predicate Named(body: seq<byte>, sep: byte, name: seq<byte>)
  {
    && name <= body && sep !in name && 0 !in name
    && (|name| == |body| || body[|name|] == sep || body[|name|] == 0)
  }

  /** The body is a name and `sep` behind it. */
  predicate Separated(body: seq<byte>, sep: byte, name: seq<byte>)
  {
    Named(body, sep, name) && |name| < |body| && body[|name|] == sep
  }

  lemma FirstIn(s: seq<byte>, b: byte, name: seq<byte>)
    requires name <= s && b !in name
    ensures IndexOf(s, b) >= |name|
    ensures |name| == |s| || s[|name|] == b ==> IndexOf(s, b) == |name|
  {
    var i := IndexOf(s, b);
    assert forall k :: 0 <= k < |name| ==> name[k] == s[k];
    if |name| < |s| && s[|name|] == b {
      assert s[..|name|] == name;
      IndexOfIs(s, b, |name|);
    }
  }

  lemma NameFound(body: seq<byte>, sep: byte, name: seq<byte>)
    requires Named(body, sep, name) && sep != 0
    ensures name <= CStr(body) && L.NameOf(CStr(body), sep) == name
    ensures Separated(body, sep, name) ==> |name| < |CStr(body)| && CStr(body)[|name|] == sep && sep in CStr(body)
    ensures !Separated(body, sep, name) ==> CStr(body) == name
  {
    var c := CStr(body);
    FirstIn(body, 0, name);
    assert c == body[..IndexOf(body, 0)] && name <= c;
    if Separated(body, sep, name) {
      NotAt(body, 0, |name|);
      assert c[|name|] == sep;
    } else if |name| < |body| {
      assert body[|name|] == 0;
    }
    FirstIn(c, sep, name);
    assert c[..|name|] == name;
  }

  lemma NotAt(s: seq<byte>, b: byte, i: nat)
    requires i < |s| && s[i] != b
    ensures IndexOf(s, b) != i
  {
  }

  // ---------------------------------------------------------------- v and Q

  lemma TextOf(p: Arrival, request: char)
    requires Asks(p, request) && request as int < 256
    ensures L.Request(p.frame) as int == request as int && L.Arguments(p.frame) == CStr(Body(p))
  {
  }

  lemma VAnswer(cfg: Config, m: Machine, p: Arrival)
    requires Riscv.Ok(m) && L.Request(p.frame) == 'v' as byte
    ensures AnswerTo(cfg, m, p) == Answering(Some(VContText(cfg.ops)), m)
  {
  }

  lemma VText(cfg: Config, s: State, p: Arrival)
    requires Ready(s) && Asks(p, 'v')
    ensures Dispatched(cfg, s.m, p) == L.VPacket(cfg.ops, CStr(Body(p)), L.Answer(true, VContText(cfg.ops), ActNone))
    ensures AnswerTo(cfg, s.m, p).m == s.m
  {
    TextOf(p, 'v');
    VAnswer(cfg, s.m, p);
  }

  lemma ContName()
    ensures |Ascii("Cont")| == 4 && L.SEMICOLON !in Ascii("Cont") && 0 !in Ascii("Cont")
    ensures Ascii("Cont") != Ascii("Cont?")
  {
    assert Ascii("Cont") == [0x43, 0x6f, 0x6e, 0x74];
  }

  /** `vCont;c...`, `vCont;s...` and any other action. */
  lemma VContAction(ops: L.Ops, body: seq<byte>, a: L.Answer)
    requires Separated(body, L.SEMICOLON, Ascii("Cont"))
    ensures L.VPacket(ops, CStr(body), a) ==
      if |body| > 5 && body[5] == 'c' as byte then L.Resume(ops.cont, EventCont)
      else if |body| > 5 && body[5] == 's' as byte then L.Resume(ops.stepi, EventStep)
      else L.Send(Ascii("E01"))
  {
    ContName();
    NameFound(body, L.SEMICOLON, Ascii("Cont"));
    AtFive(body);
  }

  lemma AtFive(body: seq<byte>)
    requires |CStr(body)| > 4 && CStr(body)[4] == L.SEMICOLON
    ensures |body| > 4 && (|body| > 5 && body[5] != 0 <==> |CStr(body)| > 5)
    ensures |CStr(body)| > 5 ==> CStr(body)[5] == body[5]
  {
    var n := IndexOf(body, 0);
    if n == 5 && |body| > 5 { assert body[5] == 0; }
  }

  /** A `vCont` with one action. */
  lemma VContRequest(cfg: Config, s: State, p: Arrival)
    requires Ready(s) && Asks(p, 'v') && Separated(Body(p), L.SEMICOLON, Ascii("Cont"))
    ensures ServeNext(cfg, s, p) ==
      if |Body(p)| > 5 && Body(p)[5] == 'c' as byte && cfg.ops.cont
      then Continued(s, Riscv.Continue(s.m, p.env.haltAfter))
      else if |Body(p)| > 5 && Body(p)[5] == 's' as byte && cfg.ops.stepi then Stepped(s, StepI(s.m))
      else Replies(s, Ascii("E01"), s.m)
  {
    VText(cfg, s, p);
    VContAction(cfg.ops, Body(p), L.Answer(true, VContText(cfg.ops), ActNone));
    var h := Dispatched(cfg, s.m, p);
    if h == L.Handled(None, EventCont, false) {
      ContServed(cfg, s, p);
    } else if h == L.Handled(None, EventStep, false) {
      StepServed(cfg, s, p);
    } else {
      AnsweredServed(cfg, s, p, Ascii("E01"), false);
    }
  }

  /** Any other `v` packet: `vCont?` is answered with the actions there are, `vCont` alone is a null argument string. */
  lemma VRequest(cfg: Config, s: State, p: Arrival, name: seq<byte>)
    requires Ready(s) && Asks(p, 'v') && Named(Body(p), L.SEMICOLON, name)
    requires !Separated(Body(p), L.SEMICOLON, Ascii("Cont"))
    ensures ServeNext(cfg, s, p) ==
      if name == Ascii("Cont") then Fails(s)
      else if name == Ascii("Cont?")
      then Replies(s, Ascii("vCont;") + (if cfg.ops.stepi then Ascii("s;") else [])
                      + (if cfg.ops.cont then Ascii("c;") else []), s.m)
      else Replies(s, [], s.m)
  {
    VText(cfg, s, p);
    ContName();
    NameFound(Body(p), L.SEMICOLON, name);
    if name == Ascii("Cont") {
      AbortServed(cfg, s, p);
    } else if name == Ascii("Cont?") {
      AnsweredServed(cfg, s, p, VContText(cfg.ops), false);
    } else {
      AnsweredServed(cfg, s, p, [], false);
    }
  }

  lemma GeneralSetText(cfg: Config, s: State, p: Arrival, name: seq<byte>)
    requires Ready(s) && Asks(p, 'Q') && Named(Body(p), COLON, name)
    ensures AnswerTo(cfg, s.m, p).m == s.m
    ensures Dispatched(cfg, s.m, p) ==
      if name == Ascii("StartNoAckMode") then L.Handled(Some(Ascii("OK")), EventNone, true) else L.Send([])
  {
    TextOf(p, 'Q');
    NameFound(Body(p), COLON, name);
    NoAnswer(cfg, s.m, p);
  }

  lemma NoAnswer(cfg: Config, m: Machine, p: Arrival)
    requires Riscv.Ok(m) && L.Request(p.frame) == 'Q' as byte
    ensures AnswerTo(cfg, m, p) == Answering(None, m)
    ensures Dispatched(cfg, m, p) == L.GeneralSet(L.Arguments(p.frame))
  {
  }

  /** `QStartNoAckMode` is answered and turns acknowledgments off; any other `Q` is not known. */
  lemma GeneralSetRequest(cfg: Config, s: State, p: Arrival, name: seq<byte>)
    requires Ready(s) && Asks(p, 'Q') && Named(Body(p), COLON, name)
    ensures ServeNext(cfg, s, p) ==
      if name == Ascii("StartNoAckMode")
      then State(L.State(true, 0, Acked(s) + [Reply(Ascii("OK"))], L.Running), s.m, false)
      else Replies(s, [], s.m)
  {
    GeneralSetText(cfg, s, p, name);
    if name == Ascii("StartNoAckMode") {
      AnsweredServed(cfg, s, p, Ascii("OK"), true);
    } else {
      AnsweredServed(cfg, s, p, [], false);
    }
  }

  // ---------------------------------------------------------------- requests that are answered

  lemma FormsDispatch(cfg: Config, m: Machine, p: Arrival)
    requires Riscv.Ok(m) && Forms(L.Request(p.frame))
    ensures Dispatched(cfg, m, p)
         == L.Answered(Present(cfg.ops, L.Request(p.frame)), ToAnswer(AnswerTo(cfg, m, p).text, ActNone))
  {
  }

  /** A handler's answer: sent if it fits, else an assertion fails. */
  lemma FormsServed(cfg: Config, s: State, p: Arrival, a: Answering)
    requires Ready(s) && Verifies(p.frame) && Forms(L.Request(p.frame)) && Present(cfg.ops, L.Request(p.frame))
    requires a == AnswerTo(cfg, s.m, p)
    ensures ServeNext(cfg, s, p) ==
      if a.text.Some? && Sendable(a.text.value) then Replies(s, a.text.value, a.m) else Fails(s)
  {
    FormsDispatch(cfg, s.m, p);
    if a.text.Some? && Sendable(a.text.value) {
      AnsweredServed(cfg, s, p, a.text.value, false);
    } else {
      AbortServed(cfg, s, p);
    }
  }

  /** The operation that a request needs is not there. */
  predicate Lacks(ops: L.Ops, p: Arrival)
  {
    || ((Asks(p, 'g') || Asks(p, 'p')) && !ops.readReg) || ((Asks(p, 'G') || Asks(p, 'P')) && !ops.writeReg)
    || (Asks(p, 'm') && !ops.readMem) || ((Asks(p, 'M') || Asks(p, 'X')) && !ops.writeMem)
    || (Asks(p, 'z') && !ops.delBp) || (Asks(p, 'Z') && !ops.setBp) || (Asks(p, 'H') && !ops.setCpu)
  }

  lemma LacksAnswer(cfg: Config, m: Machine, p: Arrival)
    requires Riscv.Ok(m) && Lacks(cfg.ops, p)
    ensures AnswerTo(cfg, m, p) == Answering(None, m)
    ensures Forms(L.Request(p.frame)) && !Present(cfg.ops, L.Request(p.frame))
  {
  }

  /** It is answered with E01, and nothing happens. */
  lemma LackingRequest(cfg: Config, s: State, p: Arrival)
    requires Ready(s) && Lacks(cfg.ops, p)
    ensures ServeNext(cfg, s, p) == Replies(s, Ascii("E01"), s.m)
  {
    LacksAnswer(cfg, s.m, p);
    FormsDispatch(cfg, s.m, p);
    AnsweredServed(cfg, s, p, Ascii("E01"), false);
  }

  /** The characters of the requests there are. */
  predicate IsRequest(b: byte)
  {
    || b == 'c' as byte || b == 'g' as byte || b == 'm' as byte || b == 'p' as byte || b == 'q' as byte
    || b == 'Q' as byte || b == 's' as byte || b == 'v' as byte || b == 'z' as byte || b == '?' as byte
    || b == 'D' as byte || b == 'G' as byte || b == 'H' as byte || b == 'M' as byte || b == 'P' as byte
    || b == 'T' as byte || b == 'X' as byte || b == 'Z' as byte
  }

  lemma UnknownDispatch(cfg: Config, m: Machine, p: Arrival)
    requires Riscv.Ok(m) && !IsRequest(L.Request(p.frame))
    ensures Dispatched(cfg, m, p) == L.Send([]) && AnswerTo(cfg, m, p) == Answering(None, m)
  {
  }

  /** Anything else, an empty packet too, gets an empty reply. */
  lemma UnknownRequest(cfg: Config, s: State, p: Arrival)
    requires Ready(s) && Verifies(p.frame) && (|p.frame| == 4 || !IsRequest(p.frame[1]))
    ensures ServeNext(cfg, s, p) == Replies(s, [], s.m)
  {
    UnknownDispatch(cfg, s.m, p);
    AnsweredServed(cfg, s, p, [], false);
  }

  /** A packet with a wrong checksum reaches no handler; the fiftieth in a row ends the loop. */
  lemma RejectedPacket(cfg: Config, s: State, p: Arrival)
    requires Ready(s) && !Verifies(p.frame)
    ensures ServeNext(cfg, s, p)
         == State(L.State(s.loop.noAck, s.loop.failures + 1, s.loop.out + (if s.loop.noAck then [] else [Nack]),
                          if s.loop.failures + 1 >= 50 then L.Returned(false) else L.Running), s.m, false)
  {
  }

  // ---------------------------------------------------------------- breakpoints

  lemma BreakAnswer(cfg: Config, m: Machine, p: Arrival, adds: bool)
    requires Riscv.Ok(m) && if adds then Asks(p, 'Z') && cfg.ops.setBp else Asks(p, 'z') && cfg.ops.delBp
    ensures Forms(L.Request(p.frame)) && Present(cfg.ops, L.Request(p.frame))
    ensures AnswerTo(cfg, m, p) ==
      if !p.env.parsed then Answering(None, m)
      else
        var (ok, b) := if adds then SetBreakpoint(m, p.env.addr, p.env.software)
                       else DeleteBreakpoint(m, p.env.addr, p.env.software);
        Answering(Some(if ok then Ascii("OK") else Ascii("E22")), b)
  {
  }

  /** `Z`: a software breakpoint is set if there is none yet; otherwise the answer is E22. */
  lemma SetBreakRequest(cfg: Config, s: State, p: Arrival)
    requires Ready(s) && Asks(p, 'Z') && cfg.ops.setBp
    ensures ServeNext(cfg, s, p) ==
      if !p.env.parsed then Fails(s)
      else if p.env.software && !s.m.bpIsSet
      then Replies(s, Ascii("OK"), s.m.(bpIsSet := true, bpAddr := p.env.addr))
      else Replies(s, Ascii("E22"), s.m)
  {
    BreakAnswer(cfg, s.m, p, true);
    FormsServed(cfg, s, p, AnswerTo(cfg, s.m, p));
  }

  /** `z`: always answered OK; the breakpoint that is set at the address is cleared, and 0 left behind. */
  lemma DelBreakRequest(cfg: Config, s: State, p: Arrival)
    requires Ready(s) && Asks(p, 'z') && cfg.ops.delBp
    ensures ServeNext(cfg, s, p) ==
      if !p.env.parsed then Fails(s)
      else if p.env.software && s.m.bpIsSet && s.m.bpAddr == p.env.addr
      then Replies(s, Ascii("OK"), s.m.(bpIsSet := false, bpAddr := 0))
      else Replies(s, Ascii("OK"), s.m)
  {
    BreakAnswer(cfg, s.m, p, false);
    FormsServed(cfg, s, p, AnswerTo(cfg, s.m, p));
  }

  /** `H`: answered OK, unless a `g` has no number behind it. */
  lemma SetCpuRequest(cfg: Config, s: State, p: Arrival)
    requires Ready(s) && Asks(p, 'H') && cfg.ops.setCpu
    ensures ServeNext(cfg, s, p) ==
      if |Body(p)| > 0 && Body(p)[0] == 'g' as byte && !p.env.parsed then Fails(s) else Replies(s, Ascii("OK"), s.m)
  {
    TextOf(p, 'H');
    CpuAnswer(cfg, s.m, p, CStr(Body(p)));
    FirstOfString(Body(p));
    FormsServed(cfg, s, p, AnswerTo(cfg, s.m, p));
  }

  lemma CpuAnswer(cfg: Config, m: Machine, p: Arrival, args: seq<byte>)
    requires Riscv.Ok(m) && L.Request(p.frame) == 'H' as byte && cfg.ops.setCpu && args == L.Arguments(p.frame)
    ensures AnswerTo(cfg, m, p)
         == Answering(if args != [] && args[0] == 'g' as byte && !p.env.parsed then None else Some(Ascii("OK")), m)
  {
  }

  lemma FirstOfString(body: seq<byte>)
    ensures CStr(body) != [] <==> |body| > 0 && body[0] != 0
    ensures CStr(body) != [] ==> CStr(body)[0] == body[0]
  {
    if |body| > 0 && IndexOf(body, 0) == 0 { assert body[0] == 0; }
  }

  // ---------------------------------------------------------------- which requests do what

  /** The frame's request and body. */
  predicate IsVCont(frame: L.Frame, action: char)
  {
    && |frame| > 4 && frame[1] == 'v' as byte
    && var body := frame[2..|frame| - 3];
       Separated(body, L.SEMICOLON, Ascii("Cont")) && |body| > 5 && body[5] as int == action as int
  }

  predicate Is(frame: L.Frame, request: char)
  {
    |frame| > 4 && frame[1] as int == request as int
  }

  /** The frame of a `Q` whose name is StartNoAckMode. */
  predicate IsNoAck(frame: L.Frame)
  {
    Is(frame, 'Q') && Named(frame[2..|frame| - 3], COLON, Ascii("StartNoAckMode"))
  }

  lemma NamedOf(body: seq<byte>, sep: byte, name: seq<byte>)
    requires sep != 0 && sep !in name && 0 !in name && L.NameOf(CStr(body), sep) == name
    ensures Named(body, sep, name)
    ensures sep in CStr(body) ==> Separated(body, sep, name)
  {
    var c := CStr(body);
    var k := IndexOf(c, sep);
    assert c == body[..IndexOf(body, 0)] && name == c[..k] && k == |name|;
    assert c[..k] == body[..k];
    if k < |c| {
      assert body[k] == c[k] == sep;
    } else if |c| < |body| {
      assert body[|c|] == 0;
    }
  }

  lemma VContOf(body: seq<byte>, ops: L.Ops, a: L.Answer)
    ensures var h, separated := L.VPacket(ops, CStr(body), a), Separated(body, L.SEMICOLON, Ascii("Cont"));
      && (h.Handled? ==> h.event == EventNone || h.event == EventCont || h.event == EventStep)
      && (h.Handled? && h.event == EventCont <==> ops.cont && separated && |body| > 5 && body[5] == 'c' as byte)
      && (h.Handled? && h.event == EventStep <==> ops.stepi && separated && |body| > 5 && body[5] == 's' as byte)
  {
    ContName();
    if Separated(body, L.SEMICOLON, Ascii("Cont")) {
      VContAction(ops, body, a);
    } else if L.NameOf(CStr(body), L.SEMICOLON) == Ascii("Cont") {
      NamedOf(body, L.SEMICOLON, Ascii("Cont"));
    }
  }

  /**
   * For any target: a packet runs it exactly when it is a `c` or a `vCont;c` with `cont` there, steps it
   * exactly when it is an `s` or a `vCont;s` with `stepi` there, and detaches exactly when it is a `D`.
   */
  lemma EventsExact(ops: L.Ops, frame: L.Frame, a: L.Answer)
    ensures var h := L.Process(ops, frame, a);
      && (h.Handled? && h.event == EventCont <==> ops.cont && (Is(frame, 'c') || IsVCont(frame, 'c')))
      && (h.Handled? && h.event == EventStep <==> ops.stepi && (Is(frame, 's') || IsVCont(frame, 's')))
      && (h.Handled? && h.event == EventDetach <==> Is(frame, 'D'))
  {
    if Is(frame, 'v') {
      VContOf(frame[2..|frame| - 3], ops, a);
      VProcess(ops, frame, a);
    } else {
      OtherEvents(ops, frame, a);
    }
  }

  lemma VProcess(ops: L.Ops, frame: L.Frame, a: L.Answer)
    requires Is(frame, 'v')
    ensures L.Process(ops, frame, a) == L.VPacket(ops, CStr(frame[2..|frame| - 3]), a)
  {
  }

  lemma OtherEvents(ops: L.Ops, frame: L.Frame, a: L.Answer)
    requires !Is(frame, 'v')
    ensures var h := L.Process(ops, frame, a);
      && (h.Handled? && h.event == EventCont <==> ops.cont && Is(frame, 'c'))
      && (h.Handled? && h.event == EventStep <==> ops.stepi && Is(frame, 's'))
      && (h.Handled? && h.event == EventDetach <==> Is(frame, 'D'))
  {
    if !Is(frame, 'c') && !Is(frame, 's') && !Is(frame, 'D') { NoEvent(ops, frame, a); }
  }

  lemma NoEvent(ops: L.Ops, frame: L.Frame, a: L.Answer)
    requires !Is(frame, 'v') && !Is(frame, 'c') && !Is(frame, 's') && !Is(frame, 'D')
    ensures L.Process(ops, frame, a).Handled? ==> L.Process(ops, frame, a).event == EventNone
  {
  }

  /** It turns acknowledgments off exactly when it is a QStartNoAckMode. */
  lemma NoAckExact(ops: L.Ops, frame: L.Frame, a: L.Answer)
    ensures var h := L.Process(ops, frame, a); h.Handled? && h.startNoAck <==> IsNoAck(frame)
  {
    if Is(frame, 'Q') {
      var body := frame[2..|frame| - 3];
      NoAckName();
      if IsNoAck(frame) {
        NameFound(body, COLON, Ascii("StartNoAckMode"));
      } else if L.NameOf(CStr(body), COLON) == Ascii("StartNoAckMode") {
        NamedOf(body, COLON, Ascii("StartNoAckMode"));
      }
      QProcess(ops, frame, a);
    } else if Is(frame, 'v') {
      VNoAck(ops, CStr(frame[2..|frame| - 3]), a);
      VProcess(ops, frame, a);
    } else {
      OtherAcks(ops, frame, a);
    }
  }

  lemma NoAckName()
    ensures COLON !in Ascii("StartNoAckMode") && 0 !in Ascii("StartNoAckMode")
  {
    PlainText("StartNoAckMode");
  }

  lemma QProcess(ops: L.Ops, frame: L.Frame, a: L.Answer)
    requires Is(frame, 'Q')
    ensures L.Process(ops, frame, a) == L.GeneralSet(CStr(frame[2..|frame| - 3]))
  {
  }

  lemma VNoAck(ops: L.Ops, args: seq<byte>, a: L.Answer)
    ensures L.VPacket(ops, args, a).Handled? ==> !L.VPacket(ops, args, a).startNoAck
  {
  }

  lemma OtherAcks(ops: L.Ops, frame: L.Frame, a: L.Answer)
    requires !Is(frame, 'Q') && !Is(frame, 'v')
    ensures L.Process(ops, frame, a).Handled? ==> !L.Process(ops, frame, a).startNoAck
  {
  }
}
