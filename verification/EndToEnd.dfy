/**
 * The parts composed: what a client sends reaches the target, and what the stub answers reaches the
 * client, however reads are split and threads interleave.
 */
module EndToEnd {
  import opened Bytes
  import opened Codec
  import opened Framing
  import opened ArrayFramer
  import opened Connection
  import opened Riscv
  import opened Emulator
  import opened MemoryCommands
  import opened Protocol
  import L = MainLoop
  import P = Pipeline
  import S = Session
  import K = Socket

  // ---------------------------------------------------------------- X

  const X_REQUEST: byte := 'X' as byte

  /** The payload of an `X` packet with its request character. */
  function XPacket(header: seq<byte>, e: seq<byte>): seq<byte>
  {
    [X_REQUEST] + XPayload(header, e)
  }

  /** What `process_mem_xwrite` gets: everything behind the request, up to where the '#' was. */
  function XArguments(frame: seq<byte>): seq<byte>
    requires |frame| >= 5
  {
    frame[2..|frame| - 3]
  }

  /**
   * A packet carrying `s` in binary can be framed exactly when its encoding has no '#'; this is so
   * for the minimal encoding always, and for any other unless it escapes a 0x03.
   */
  lemma XFramable(header: seq<byte>, e: seq<byte>, s: seq<byte>)
    requires HASH !in header && Encodes(e, s)
    ensures IsFrame(FrameOf(XPacket(header, e))) <==> HASH !in e
    ensures INTR_CHAR !in s || e == Escape(s) ==> HASH !in e
  {
    FrameRoundTrip(XPacket(header, e));
    EncodedHash(e, s);
    assert HASH in XPacket(header, e) <==> HASH in e;
  }

  lemma XArgumentsOf(header: seq<byte>, e: seq<byte>)
    ensures var f := FrameOf(XPacket(header, e));
      |f| >= 5 && Verifies(f) && L.Request(f) == X_REQUEST && XArguments(f) == XPayload(header, e)
  {
    var p := XPacket(header, e);
    var f := FrameOf(p);
    FrameRoundTrip(p);
    assert PayloadOf(f)[0] == f[1] && PayloadOf(f)[1..] == f[2..|f| - 3];
    assert p[1..] == XPayload(header, e);
  }

  /** What an `X` with these arguments writes to the emulator's memory is `s`, in range and length. */
  ghost predicate Stores(args: seq<byte>, s: seq<byte>)
  {
    forall mem: seq<byte>, addr: u64 :: |mem| == MEM_SIZE && addr + |s| <= MEM_SIZE ==>
      XWrite(mem, args, addr, |s|) == (MemReply.Ok, Splice(mem, addr, s))
  }

  lemma ContentStored(args: seq<byte>, s: seq<byte>)
    requires XContent(args) == Some(s)
    ensures Stores(args, s)
  {
  }

  /** The packet is accepted, dispatched as an `X`, unescapes to `s`, and an in-range write stores exactly `s`. */
  ghost predicate Carries(frame: seq<byte>, s: seq<byte>)
  {
    && |frame| >= 5 && Verifies(frame) && L.Request(frame) == X_REQUEST
    && XContent(XArguments(frame)) == Some(s) && Stores(XArguments(frame), s)
  }

  lemma XCarried(frame: seq<byte>, header: seq<byte>, e: seq<byte>, s: seq<byte>)
    requires frame == FrameOf(XPacket(header, e))
    requires COLON !in header && 0 !in header && Encodes(e, s)
    ensures Carries(frame, s)
  {
    XArgumentsOf(header, e);
    XCarries(header, e, s);
    ContentStored(XPayload(header, e), s);
  }

  /**
   * `X` end to end: any bytes in any legal encoding, framed among other packets and split in any way,
   * arrive with an accepted checksum as exactly those bytes, and an in-range write stores them.
   */
  lemma XDelivered(payloads: seq<seq<byte>>, gaps: seq<seq<byte>>, b: Buffer, rs: seq<Read>,
                   k: nat, header: seq<byte>, e: seq<byte>, s: seq<byte>)
    requires |gaps| == |payloads| + 1 && forall g :: g in gaps ==> DOLLAR !in g
    requires Sound(b) && b.size == 0
    requires Concat(Chunks(rs)) == Interleave(gaps, Connection.FramesOf(payloads), [])
    requires forall p :: p in payloads ==> HASH !in p
    requires k < |payloads| && payloads[k] == XPacket(header, e)
    requires COLON !in header && 0 !in header && Encodes(e, s)
    ensures var got := Delivered(Receive(Corrected, b, rs));
      |got| == |payloads| && Carries(got[k], s)
  {
    SentIsReceived(payloads, gaps, b, rs);
    XCarried(FrameOf(payloads[k]), header, e, s);
  }

  // ---------------------------------------------------------------- what a packet sets off in the reader

  /** An `X` that carries one '#': the byte travels escaped, as 7d 03. */
  function HashWrite(header: seq<byte>): seq<byte>
  {
    FrameOf(XPacket(header, Escape([HASH])))
  }

  lemma HashEscaped()
    ensures Escape([HASH]) == [ESCAPE, INTR_CHAR]
  {
    assert Escape([HASH])[2..] == Escape([]);
  }

  /** It is a whole packet, with nothing around it. */
  lemma HashWriteFramed(header: seq<byte>)
    requires HASH !in header
    ensures IsFrame(HashWrite(header)) && Partition([[], []], [HashWrite(header)], [])
    ensures Interleave([[], []], [HashWrite(header)], []) == HashWrite(header)
  {
    HashEscaped();
    XFramable(header, Escape([HASH]), [HASH]);
    var f := HashWrite(header);
    var gaps: seq<seq<byte>> := [[], []];
    assert gaps[1..] == [[]] && [f][1..] == [];
    assert [] + (f + ([] + [])) == f;
  }

  lemma {:induction false} IntrInside(s: seq<byte>, k: nat)
    requires k < |s| && s[k] == INTR_CHAR
    ensures P.IntrBytes(s) >= 1
  {
    if k > 0 { IntrInside(s[1..], k - 1); }
  }

  lemma HashWriteHolds(header: seq<byte>)
    ensures P.IntrBytes(HashWrite(header)) >= 1
  {
    HashEscaped();
    var p := XPacket(header, Escape([HASH]));
    FrameParts(p);
    var f := HashWrite(header);
    assert p[|header| + 3] == INTR_CHAR && PayloadOf(f)[|header| + 3] == f[|header| + 4];
    IntrInside(f, |header| + 4);
  }

  /** An input: one write of a '#' and nothing between packets, and yet the reader has interrupted. */
  lemma WriteInterrupts(ops: L.Ops, header: seq<byte>) returns (s: P.State)
    requires HASH !in header
    ensures P.Reachable(s) && s.ops == ops && Concat(s.reader.chunks) == HashWrite(header)
    ensures Partition([[], []], [HashWrite(header)], [])
    ensures Interleave([[], []], [HashWrite(header)], []) == Concat(s.reader.chunks)
    ensures P.Unsignalled(s.reader.pc) == 0 && s.reader.interrupts > P.IntrIn([[], []]) == 0
  {
    HashWriteFramed(header);
    HashWriteHolds(header);
    s := P.ReaderReads(ops, HashWrite(header));
    var gaps: seq<seq<byte>> := [[], []];
    assert gaps[1..] == [[]] && gaps[1..][1..] == [] && P.IntrIn([[]]) == 0;
  }

  const BAD_PACKET: seq<byte> := [DOLLAR, HASH, '0' as byte, '1' as byte]

  lemma BadPacket()
    ensures IsFrame(BAD_PACKET) && Frames(BAD_PACKET) == [BAD_PACKET] && !Verifies(BAD_PACKET)
  {
    assert BAD_PACKET[..1] == [DOLLAR] && PayloadOf(BAD_PACKET) == [];
    SingleFrame(BAD_PACKET);
    assert Checksum([]) == 0 && DecodePair('0' as byte, '1' as byte) == 1;
  }

  /** An input: "$#01" is acknowledged by the reader, although its checksum is wrong. */
  lemma BadPacketAcked(ops: L.Ops) returns (s: P.State)
    ensures P.Reachable(s) && s.ops == ops && s.reader.acked == [0] && |s.reader.taken| > 0
    ensures s.reader.taken[0].frame == BAD_PACKET && !Verifies(s.reader.taken[0].frame)
  {
    BadPacket();
    s := P.BadAcked(ops, BAD_PACKET, 0);
  }

  function NoAckRequest(): seq<byte>
  {
    ['Q' as byte] + Ascii("StartNoAckMode")
  }

  lemma NoAckText()
    ensures HASH !in Ascii("StartNoAckMode") && COLON !in Ascii("StartNoAckMode") && 0 !in Ascii("StartNoAckMode")
  {
    TextWithoutHash("StartNoAckMode");
    PlainText("StartNoAckMode");
    WithoutColon("StartNoAckMode");
  }

  lemma WithoutColon(text: string)
    requires forall c :: c in text ==> c as int < 256 && c != ':'
    ensures COLON !in Ascii(text)
  {
    forall i | 0 <= i < |text| ensures Ascii(text)[i] != COLON {
      assert text[i] in text;
    }
  }

  lemma NoAckParts(f: seq<byte>, p: seq<byte>, text: seq<byte>)
    requires f == FrameOf(p) && p == ['Q' as byte] + text
    ensures |f| > 4 && f[1] == 'Q' as byte && f[2..|f| - 3] == text
  {
    FrameParts(p);
    assert PayloadOf(f)[0] == f[1] && PayloadOf(f)[1..] == f[2..|f| - 3] && p[1..] == text;
  }

  lemma NoAckArguments(f: seq<byte>, text: seq<byte>)
    requires |f| > 4 && f[1] == 'Q' as byte && f[2..|f| - 3] == text && text == Ascii("StartNoAckMode")
    ensures L.Request(f) == 'Q' as byte && L.GeneralSet(L.Arguments(f)).startNoAck
  {
    NoAckText();
    assert CStr(text) == text && L.NameOf(text, COLON) == text;
  }

  lemma NoAckFrame()
    ensures var f := FrameOf(NoAckRequest()); Frames(f) == [f] && P.EndsAcks(f)
  {
    NoAckText();
    FrameRoundTrip(NoAckRequest());
    SingleFrame(FrameOf(NoAckRequest()));
    NoAckParts(FrameOf(NoAckRequest()), NoAckRequest(), Ascii("StartNoAckMode"));
    NoAckArguments(FrameOf(NoAckRequest()), Ascii("StartNoAckMode"));
  }

  /** An input: the reader acknowledges QStartNoAckMode after the main thread has turned acknowledgments off. */
  lemma NoAckAcked(ops: L.Ops) returns (s: P.State)
    ensures P.Reachable(s) && s.ops == ops && P.AcksLate(s)
  {
    NoAckFrame();
    s := P.LateAck(ops, FrameOf(NoAckRequest()), 0);
  }

  // ---------------------------------------------------------------- the whole stub

  lemma BuiltAccepted(payloads: seq<seq<byte>>, inputs: L.Inputs)
    requires P.FramesIn(inputs) == Connection.FramesOf(payloads)
    ensures |inputs| == |payloads|
    ensures forall k :: 0 <= k < |inputs| ==> inputs[k].frame == FrameOf(payloads[k]) && Verifies(inputs[k].frame)
  {
    assert |P.FramesIn(inputs)| == |Connection.FramesOf(payloads)|;
    forall k | 0 <= k < |inputs| ensures inputs[k].frame == FrameOf(payloads[k]) && Verifies(inputs[k].frame) {
      assert P.FramesIn(inputs)[k] == Connection.FramesOf(payloads)[k];
      FrameRoundTrip(payloads[k]);
    }
  }

  lemma {:induction false} AllAccepted(ops: L.Ops, inputs: L.Inputs)
    requires forall k :: 0 <= k < |inputs| ==> Verifies(inputs[k].frame)
    ensures L.Count(ops, inputs, L.Accepted) == |inputs|
    ensures L.TrailingBad(inputs) == 0
  {
    if inputs != [] {
      AllAccepted(ops, inputs[1..]);
    }
  }

  /**
   * A client sends any packets without '#', with acknowledgments or other '$'-free bytes between
   * them, in any split. Whatever the interleaving of the two threads, and whatever interrupted them, a
   * clean exit that leaves no packet anywhere has processed exactly the packets sent, in this order,
   * accepted each, and sent one reply for each but the silent runs.
   */
  lemma EveryPacketAnswered(s: P.State, payloads: seq<seq<byte>>, gaps: seq<seq<byte>>)
    requires P.Reachable(s) && s.main.cleanExit
    requires P.NothingLeft(s) && FramerRight(s.rule, s.reader.chunks)
    requires |gaps| == |payloads| + 1 && forall g :: g in gaps ==> DOLLAR !in g
    requires forall p :: p in payloads ==> HASH !in p
    requires Concat(s.reader.chunks) == Interleave(gaps, Connection.FramesOf(payloads), [])
    ensures P.FramesIn(s.main.inputs) == Connection.FramesOf(payloads)
    ensures s.main.loop.failures == 0
    ensures |L.RepliesIn(s.main.loop.out)| == |payloads| - L.Count(s.ops, s.main.inputs, L.SilentRun)
  {
    P.EverythingProcessed(s);
    SentFrames(payloads, gaps);
    BuiltAccepted(payloads, s.main.inputs);
    AllAccepted(s.ops, s.main.inputs);
    P.NotDeadAtExit(s);
    P.RepliesConserved(s);
  }

  lemma SentFrames(payloads: seq<seq<byte>>, gaps: seq<seq<byte>>)
    requires |gaps| == |payloads| + 1 && forall g :: g in gaps ==> DOLLAR !in g
    requires forall p :: p in payloads ==> HASH !in p
    ensures Frames(Interleave(gaps, Connection.FramesOf(payloads), [])) == Connection.FramesOf(payloads)
  {
    forall f | f in Connection.FramesOf(payloads) ensures IsFrame(f) {
      var i :| 0 <= i < |payloads| && f == FrameOf(payloads[i]);
      assert payloads[i] in payloads;
      FrameRoundTrip(payloads[i]);
    }
    PartitionUnique(gaps, Connection.FramesOf(payloads), []);
  }

  /**
   * With the emulator as the target and the real handlers: what the answers in the pipeline come to is
   * the session of the packets sent, and the machine has had exactly their effects, in order.
   */
  lemma EveryEffectHappens(s: P.State, payloads: seq<seq<byte>>, gaps: seq<seq<byte>>, cfg: S.Config, m: Machine,
                           packets: seq<S.Arrival>)
    requires P.Reachable(s) && s.main.cleanExit
    requires P.NothingLeft(s) && FramerRight(s.rule, s.reader.chunks)
    requires |gaps| == |payloads| + 1 && forall g :: g in gaps ==> DOLLAR !in g
    requires forall p :: p in payloads ==> HASH !in p
    requires Concat(s.reader.chunks) == Interleave(gaps, Connection.FramesOf(payloads), [])
    requires Riscv.Ok(m) && s.ops == cfg.ops && |packets| == |payloads|
    requires s.main.inputs == S.Inputs(cfg, S.Start(m), packets)
    ensures forall k :: 0 <= k < |packets| ==> packets[k].frame == FrameOf(payloads[k])
    ensures var r := S.Run(cfg, S.Start(m), packets);
      s.main.loop == r.loop && r.m == S.ApplyAll(m, S.EffectsOf(cfg, packets))
  {
    EveryPacketAnswered(s, payloads, gaps);
    BuiltAccepted(payloads, s.main.inputs);
    P.LoopSeesPackets(s);
    S.SessionIsLoop(cfg, S.Start(m), packets);
    S.MachineIsFold(cfg, S.Start(m), packets);
    assert packets[..|packets|] == packets;
    forall k | 0 <= k < |packets| ensures packets[k].frame == FrameOf(payloads[k]) {
      S.InputsFrames(cfg, S.Start(m), packets, k);
    }
  }

  // ---------------------------------------------------------------- the way back

  /** The bytes of one thing the main thread sends. */
  function WireOf(o: Out): seq<byte>
  {
    match o
    case Ack => ['+' as byte]
    case Nack => ['-' as byte]
    case Reply(text) => FrameOf(text)
  }

  function Texts(out: seq<Out>): seq<seq<byte>>
  {
    if out == [] then [] else (if out[0].Reply? then [out[0].text] else []) + Texts(out[1..])
  }

  lemma {:induction false} TextsSnoc(out: seq<Out>, o: Out)
    ensures Texts(out + [o]) == Texts(out) + if o.Reply? then [o.text] else []
  {
    if out == [] {
      assert [o][1..] == [];
    } else {
      assert (out + [o])[1..] == out[1..] + [o];
      TextsSnoc(out[1..], o);
      Reassociate(if out[0].Reply? then [out[0].text] else [], Texts(out[1..]), if o.Reply? then [o.text] else []);
    }
  }

  lemma {:induction false} TextsCount(out: seq<Out>)
    ensures |Texts(out)| == |L.RepliesIn(out)|
  {
    if out != [] { TextsCount(out[1..]); }
  }

  /** The main thread's turns at the socket were for `out`; the reader's, anywhere in between, for a '+' each. */
  ghost predicate Carried(turns: seq<K.Turn>, out: seq<Out>)
    decreases |turns|
  {
    if turns == [] then out == []
    else
      var t, before := turns[|turns| - 1], turns[..|turns| - 1];
      match t.who
      case MainThread => out != [] && t.str == WireOf(out[|out| - 1]) && Carried(before, out[..|out| - 1])
      case ReaderThread => t.str == ['+' as byte] && Carried(before, out)
  }

  /** The turn was for a reply, and no acknowledgment. */
  predicate ForReply(t: K.Turn)
  {
    t.who == K.MainThread && |t.str| > 1
  }

  /** Every send of a reply has returned true. */
  ghost predicate RepliesSent(turns: seq<K.Turn>)
  {
    forall t :: t in turns && ForReply(t) ==> K.Succeeded(t)
  }

  // ---------------------------------------------------------------- what the threads hand to the socket

  /** In these steps the main thread hands over `out`, in order, and the reader thread nothing but '+'. */
  predicate HandsOver(steps: seq<K.Step>, out: seq<Out>)
    decreases |steps|
  {
    if steps == [] then out == []
    else if !steps[0].Enter? then HandsOver(steps[1..], out)
    else
      match steps[0].who
      case MainThread => out != [] && steps[0].str == WireOf(out[0]) && HandsOver(steps[1..], out[1..])
      case ReaderThread => steps[0].str == ['+' as byte] && HandsOver(steps[1..], out)
  }

  /** `done` has been handed over; the last of it is being sent while the main thread is inside. */
  ghost predicate Handed(s: K.Socket, done: seq<Out>)
  {
    && K.Excludes(s)
    && (s.reader != K.Idle ==> s.reader.str == ['+' as byte])
    && if s.main == K.Idle then Carried(s.turns, done)
       else done != [] && s.main.str == WireOf(done[|done| - 1]) && Carried(s.turns, done[..|done| - 1])
  }

  lemma CarriedSnoc(turns: seq<K.Turn>, t: K.Turn, before: seq<Out>, o: Out)
    requires Carried(turns, before)
    ensures t.who == K.MainThread && t.str == WireOf(o) ==> Carried(turns + [t], before + [o])
    ensures t.who == K.ReaderThread && t.str == ['+' as byte] ==> Carried(turns + [t], before)
  {
    assert (turns + [t])[..|turns|] == turns && (before + [o])[..|before|] == before;
  }

  lemma WhoIsInside(s: K.Socket)
    requires K.Excludes(s)
    ensures s.mutex == Some(K.MainThread) <==> s.main != K.Idle
    ensures s.mutex == Some(K.ReaderThread) <==> s.reader != K.Idle
  {
    assert K.ProgramOf(s, K.MainThread) == s.main && K.ProgramOf(s, K.ReaderThread) == s.reader;
  }

  lemma LeaveHanded(s: K.Socket, who: K.Sender, done: seq<Out>)
    requires Handed(s, done) && K.LeaveNext(s, who).Some? && K.Excludes(K.LeaveNext(s, who).value)
    ensures Handed(K.LeaveNext(s, who).value, done)
  {
    WhoIsInside(s);
    var p := K.ProgramOf(s, who);
    var t := K.Turn(who, p.str, p.events);
    if who == K.MainThread {
      var before, last := done[..|done| - 1], done[|done| - 1];
      assert done == before + [last];
      CarriedSnoc(s.turns, t, before, last);
    } else {
      CarriedSnoc(s.turns, t, done, Ack);
    }
  }

  lemma EnterHanded(s: K.Socket, who: K.Sender, str: seq<byte>, done: seq<Out>, o: Out)
    requires Handed(s, done) && K.EnterNext(s, who, str).Some? && K.Excludes(K.EnterNext(s, who, str).value)
    requires str == if who == K.MainThread then WireOf(o) else ['+' as byte]
    ensures Handed(K.EnterNext(s, who, str).value, if who == K.MainThread then done + [o] else done)
  {
    WhoIsInside(s);
    assert (done + [o])[..|done|] == done;
  }

  lemma HandedStep(s: K.Socket, step: K.Step, done: seq<Out>, o: Out)
    requires Handed(s, done) && K.Next(s, step).Some?
    requires step.Enter? ==> step.str == if step.who == K.MainThread then WireOf(o) else ['+' as byte]
    ensures Handed(K.Next(s, step).value, if step.Enter? && step.who == K.MainThread then done + [o] else done)
  {
    K.ExcludesStep(s, step);
    match step
    case Enter(who, str) => EnterHanded(s, who, str, done, o);
    case Event(who, e) =>
    case Leave(who) => LeaveHanded(s, who, done);
  }

  lemma {:induction false} HandedRun(s: K.Socket, steps: seq<K.Step>, done: seq<Out>, out: seq<Out>)
    requires Handed(s, done) && HandsOver(steps, out) && K.Run(s, steps).Some?
    ensures Handed(K.Run(s, steps).value, done + out)
    decreases |steps|
  {
    if steps == [] {
      assert done + out == done;
    } else {
      var step, o := steps[0], if out == [] then Ack else out[0];
      HandedStep(s, step, done, o);
      var n := K.Next(s, step).value;
      if step.Enter? && step.who == K.MainThread {
        HandedRun(n, steps[1..], done + [o], out[1..]);
        assert out == [o] + out[1..];
        Reassociate(done, [o], out[1..]);
      } else {
        HandedRun(n, steps[1..], done, out);
      }
    }
  }

  /** Every run of the two threads in which the main thread hands over `out` comes to turns that carry it. */
  lemma HandedCarried(s: K.Socket, steps: seq<K.Step>, out: seq<Out>)
    requires K.Run(K.START, steps) == Some(s) && s.mutex == None && HandsOver(steps, out)
    ensures K.Reachable(s) && Carried(s.turns, out)
  {
    assert K.Excludes(K.START);
    HandedRun(K.START, steps, [], out);
    assert [] + out == out;
    WhoIsInside(s);
  }

  /** The three steps of a send that one write completes. */
  function SendSteps(str: seq<byte>): seq<K.Step>
  {
    [K.Enter(K.MainThread, str), K.Event(K.MainThread, Wrote(|str|)), K.Leave(K.MainThread)]
  }

  lemma SentInOne(str: seq<byte>)
    requires str != []
    ensures var r := K.Sent(K.MainThread, str, [Wrote(|str|)]); r.result == Finished(true) && r.written == |str|
    ensures K.Sent(K.MainThread, str, []) == SendState(0, 0, Pending)
  {
    assert [Wrote(|str|)][1..] == [];
    var s := SendStep(str, K.Timeout(K.MainThread), SendState(0, 0, Pending), Wrote(|str|));
    assert SendRun(str, K.Timeout(K.MainThread), s, []) == s.(result := Finished(true));
  }

  lemma SendsOne(s: K.Socket, str: seq<byte>) returns (n: K.Socket)
    requires s.mutex == None && s.main == K.Idle && str != []
    ensures n.mutex == None && n.main == K.Idle && n.turns == s.turns + [K.Turn(K.MainThread, str, [Wrote(|str|)])]
    ensures K.Run(s, SendSteps(str)) == Some(n)
  {
    SentInOne(str);
    var a := K.EnterNext(s, K.MainThread, str).value;
    assert [] + [Wrote(|str|)] == [Wrote(|str|)];
    var b := K.EventNext(a, K.MainThread, Wrote(|str|)).value;
    n := K.LeaveNext(b, K.MainThread).value;
    ThreeSteps(s, SendSteps(str), a, b, n);
  }

  lemma ThreeSteps(s: K.Socket, steps: seq<K.Step>, a: K.Socket, b: K.Socket, n: K.Socket)
    requires |steps| == 3 && K.Next(s, steps[0]) == Some(a)
    requires K.Next(a, steps[1]) == Some(b) && K.Next(b, steps[2]) == Some(n)
    ensures K.Run(s, steps) == Some(n)
  {
    assert steps[1..][0] == steps[1] && steps[1..][1..] == [steps[2]] && [steps[2]][1..] == [];
    assert K.Run(n, []) == Some(n);
    assert K.Run(b, [steps[2]]) == Some(n);
  }

  lemma {:induction false} RunAppend(s: K.Socket, a: seq<K.Step>, b: seq<K.Step>)
    requires K.Run(s, a).Some?
    ensures K.Run(s, a + b) == K.Run(K.Run(s, a).value, b)
    decreases |a|
  {
    if a == [] {
      assert a + b == b;
    } else {
      assert (a + b)[0] == a[0] && (a + b)[1..] == a[1..] + b;
      RunAppend(K.Next(s, a[0]).value, a[1..], b);
    }
  }

  lemma HandsOverOne(str: seq<byte>, rest: seq<K.Step>, steps: seq<K.Step>, out: seq<Out>)
    requires steps == SendSteps(str) + rest && out != [] && str == WireOf(out[0]) && HandsOver(rest, out[1..])
    ensures HandsOver(steps, out)
  {
    assert steps[1..][1..][1..] == rest;
  }

  /** There is such a run for anything the main loop sends: the reader stays outside and one write takes each string. */
  lemma {:induction false} HandoverFrom(s: K.Socket, out: seq<Out>) returns (n: K.Socket, steps: seq<K.Step>)
    requires s.mutex == None && s.main == K.Idle && RepliesSent(s.turns)
    ensures K.Run(s, steps) == Some(n) && HandsOver(steps, out)
    ensures n.mutex == None && RepliesSent(n.turns)
    decreases |out|
  {
    n, steps := s, [];
    if out != [] {
      var str, rest, m := WireOf(out[0]), [], s;
      m := SendsOne(s, str);
      SentInOne(str);
      n, rest := HandoverFrom(m, out[1..]);
      steps := SendSteps(str) + rest;
      RunAppend(s, SendSteps(str), rest);
      HandsOverOne(str, rest, steps, out);
    }
  }

  /** So the replies of any session can be carried, and sent whole. */
  lemma HandoverExists(out: seq<Out>) returns (s: K.Socket, steps: seq<K.Step>)
    ensures K.Run(K.START, steps) == Some(s) && s.mutex == None && HandsOver(steps, out)
    ensures K.Reachable(s) && Carried(s.turns, out) && RepliesSent(s.turns)
  {
    s, steps := HandoverFrom(K.START, out);
    HandedCarried(s, steps, out);
  }

  /** A turn that brings a whole frame adds it; one that brings no '$' adds nothing. */
  lemma FrameLast(a: seq<byte>, f: seq<byte>)
    requires Tail(a) == [] && IsFrame(f)
    ensures Frames(a + f) == Frames(a) + [f] && Tail(a + f) == []
  {
    FramesAppend(a, f);
    SingleFrame(f);
    assert [] + f == f;
  }

  lemma MarkLast(a: seq<byte>, mark: seq<byte>)
    requires Tail(a) == [] && DOLLAR !in mark
    ensures Frames(a + mark) == Frames(a) && Tail(a + mark) == []
  {
    FramesAppend(a, mark);
    assert [] + mark == mark && SkipToDollar(mark) == [];
    assert Frames(mark) == [] && Frames(a) + [] == Frames(a);
  }

  lemma FramesOfSnoc(texts: seq<seq<byte>>, text: seq<byte>)
    ensures Connection.FramesOf(texts + [text]) == Connection.FramesOf(texts) + [FrameOf(text)]
  {
  }

  lemma MainTurn(a: seq<byte>, before: seq<Out>, o: Out, sent: seq<byte>)
    requires Frames(a) == Connection.FramesOf(Texts(before)) && Tail(a) == []
    requires if o.Reply? then HASH !in o.text && sent == WireOf(o) else sent <= WireOf(o)
    ensures Frames(a + sent) == Connection.FramesOf(Texts(before + [o])) && Tail(a + sent) == []
  {
    TextsSnoc(before, o);
    if o.Reply? {
      FrameRoundTrip(o.text);
      FrameLast(a, FrameOf(o.text));
      FramesOfSnoc(Texts(before), o.text);
    } else {
      MarkLast(a, sent);
      assert Texts(before) + [] == Texts(before);
    }
  }

  /** When all replies were sent, what the turns put on the socket frames as exactly these, in order and whole. */
  lemma {:induction false} TurnsCarry(turns: seq<K.Turn>, out: seq<Out>)
    requires Carried(turns, out) && HashFree(out) && RepliesSent(turns)
    ensures Frames(K.TurnOutput(turns)) == Connection.FramesOf(Texts(out)) && Tail(K.TurnOutput(turns)) == []
    decreases |turns|
  {
    if turns == [] {
      UnfinishedTail([]);
    } else {
      var t, front := turns[|turns| - 1], turns[..|turns| - 1];
      FrontSent(turns, t, front);
      if t.who == K.MainThread {
        var o, before := out[|out| - 1], out[..|out| - 1];
        assert out == before + [o] && o in out;
        TurnsCarry(front, before);
        MainTurn(K.TurnOutput(front), before, o, K.SentBytes(t.who, t.str, t.events));
      } else {
        TurnsCarry(front, out);
        MarkLast(K.TurnOutput(front), K.SentBytes(t.who, t.str, t.events));
      }
    }
  }

  lemma FrontSent(turns: seq<K.Turn>, t: K.Turn, front: seq<K.Turn>)
    requires turns != [] && t == turns[|turns| - 1] && front == turns[..|turns| - 1] && RepliesSent(turns)
    ensures RepliesSent(front) && (ForReply(t) ==> K.SentBytes(t.who, t.str, t.events) == t.str)
  {
    assert t in turns && forall x :: x in front ==> x in turns;
    K.WholeExactly(t);
  }

  // ---------------------------------------------------------------- a reply cut short is missed

  /** The bytes that are no acknowledgment. */
  function Weight(s: seq<byte>): nat
  {
    if s == [] then 0 else (if s[0] == '+' as byte || s[0] == '-' as byte then 0 else 1) + Weight(s[1..])
  }

  function Weights(frames: seq<seq<byte>>): nat
  {
    if frames == [] then 0 else Weight(frames[0]) + Weights(frames[1..])
  }

  lemma {:induction false} WeightAppend(a: seq<byte>, b: seq<byte>)
    ensures Weight(a + b) == Weight(a) + Weight(b)
  {
    if a == [] {
      assert a + b == b;
    } else {
      assert (a + b)[1..] == a[1..] + b;
      WeightAppend(a[1..], b);
    }
  }

  lemma WeightSplit(s: seq<byte>, n: nat)
    requires n <= |s|
    ensures Weight(s) == Weight(s[..n]) + Weight(s[n..])
  {
    assert s == s[..n] + s[n..];
    WeightAppend(s[..n], s[n..]);
  }

  lemma {:induction false} WeightsSnoc(frames: seq<seq<byte>>, f: seq<byte>)
    ensures Weights(frames + [f]) == Weights(frames) + Weight(f)
  {
    if frames == [] {
      assert [f][1..] == [];
    } else {
      assert (frames + [f])[1..] == frames[1..] + [f];
      WeightsSnoc(frames[1..], f);
    }
  }

  /** The packets of a stream weigh no more than it does. */
  lemma {:induction false} FramesWeigh(s: seq<byte>)
    ensures Weights(Frames(s)) <= Weight(s)
    decreases |s|
  {
    var t := SkipToDollar(s);
    WeightSplit(s, IndexOf(s, DOLLAR));
    if HasFrame(t) {
      var n := FrameLength(t);
      GrammarStep(s, t, n);
      FramesWeigh(t[n..]);
      WeightSplit(t, n);
      assert Frames(s)[1..] == Frames(t[n..]);
    }
  }

  /** A frame cut short is lighter: it ends with a hex digit. */
  lemma CutIsLighter(text: seq<byte>, n: nat)
    requires n <= |FrameOf(text)|
    ensures Weight(FrameOf(text)[..n]) <= Weight(FrameOf(text))
    ensures n < |FrameOf(text)| ==> Weight(FrameOf(text)[..n]) < Weight(FrameOf(text))
  {
    var f := FrameOf(text);
    WeightSplit(f, n);
    if n < |f| {
      var cut := f[n..];
      WeightSplit(cut, |cut| - 1);
      LastIsDigit(text);
      assert cut[|cut| - 1..] == [f[|f| - 1]];
    }
  }

  lemma LastIsDigit(text: seq<byte>)
    ensures var f := FrameOf(text); Weight([f[|f| - 1]]) == 1
  {
    var f := FrameOf(text);
    var digits := HexEncode([Checksum(text)]);
    HexEncodeDigits([Checksum(text)]);
    assert f[|f| - 1] == digits[1] && digits[1] in digits;
    assert !IsHexDigit('+' as byte) && !IsHexDigit('-' as byte);
    assert [f[|f| - 1]][1..] == [];
  }

  lemma MarkWeighsNothing(mark: seq<byte>, n: nat)
    requires (mark == ['+' as byte] || mark == ['-' as byte]) && n <= 1
    ensures Weight(mark[..n]) == 0
  {
    if n == 1 { assert mark[..1] == mark && mark[1..] == []; }
  }

  /** What one main turn adds, in weight, against what it was for. */
  lemma TurnWeighs(t: K.Turn, o: Out)
    requires t.str == WireOf(o)
    ensures var w := Weight(K.SentBytes(t.who, t.str, t.events));
      if o.Reply? then w <= Weight(FrameOf(o.text)) && (w == Weight(FrameOf(o.text)) ==> K.Succeeded(t)) else w == 0
  {
    var n := K.Sent(t.who, t.str, t.events).written;
    K.WholeExactly(t);
    if o.Reply? {
      CutIsLighter(o.text, n);
      assert n == |t.str| ==> t.str[..n] == t.str;
    } else {
      MarkWeighsNothing(t.str, n);
    }
  }

  /** The turns weigh at most what the replies do, and less if one was cut short. */
  lemma {:induction false} TurnsWeigh(turns: seq<K.Turn>, out: seq<Out>)
    requires Carried(turns, out)
    ensures Weight(K.TurnOutput(turns)) <= Weights(Connection.FramesOf(Texts(out)))
    ensures Weight(K.TurnOutput(turns)) == Weights(Connection.FramesOf(Texts(out))) ==> RepliesSent(turns)
    decreases |turns|
  {
    if turns != [] {
      var t, front := turns[|turns| - 1], turns[..|turns| - 1];
      TurnAdds(turns, t, front);
      if t.who == K.MainThread {
        var o, before := out[|out| - 1], out[..|out| - 1];
        assert out == before + [o];
        TurnsWeigh(front, before);
        TurnWeighs(t, o);
        TextsWeigh(before, o);
      } else {
        TurnsWeigh(front, out);
        MarkWeighsNothing(t.str, K.Sent(t.who, t.str, t.events).written);
      }
    }
  }

  lemma TurnAdds(turns: seq<K.Turn>, t: K.Turn, front: seq<K.Turn>)
    requires turns != [] && t == turns[|turns| - 1] && front == turns[..|turns| - 1]
    ensures Weight(K.TurnOutput(turns)) == Weight(K.TurnOutput(front)) + Weight(K.SentBytes(t.who, t.str, t.events))
    ensures RepliesSent(front) && (ForReply(t) ==> K.Succeeded(t)) ==> RepliesSent(turns)
  {
    WeightAppend(K.TurnOutput(front), K.SentBytes(t.who, t.str, t.events));
    assert forall x :: x in turns ==> x == t || x in front;
  }

  lemma TextsWeigh(before: seq<Out>, o: Out)
    ensures Weights(Connection.FramesOf(Texts(before + [o])))
         == Weights(Connection.FramesOf(Texts(before))) + if o.Reply? then Weight(FrameOf(o.text)) else 0
  {
    TextsSnoc(before, o);
    if o.Reply? {
      FramesOfSnoc(Texts(before), o.text);
      WeightsSnoc(Connection.FramesOf(Texts(before)), FrameOf(o.text));
    } else {
      assert Texts(before) + [] == Texts(before);
    }
  }

  /**
   * Whatever the two threads did at the socket, once both are outside: a client that reads the output,
   * in any split, receives exactly the replies, in order and whole, if and only if every send of a
   * reply returned true. Acknowledgments of either thread, sent or not, make no difference.
   */
  lemma ClientReceives(s: K.Socket, out: seq<Out>, chunks: seq<seq<byte>>)
    requires K.Reachable(s) && s.mutex == None
    requires Carried(s.turns, out) && HashFree(out)
    requires Concat(chunks) == s.output
    ensures var r := Expected([], chunks);
      Delivered(r) == Connection.FramesOf(Texts(out)) && Left([], r) == [] <==> RepliesSent(s.turns)
  {
    K.SocketOutput(s);
    assert K.TurnOutput(s.turns) + [] == K.TurnOutput(s.turns);
    WholeStream(chunks);
    if RepliesSent(s.turns) {
      TurnsCarry(s.turns, out);
    }
    FramesWeigh(s.output);
    TurnsWeigh(s.turns, out);
  }

  /**
   * The replies of a session: `out` is what the stub has sent after any packets, and the client receives
   * exactly one reply for each packet accepted, but for the silent runs, if and only if every send of a
   * reply returned true.
   */
  lemma SessionReceived(s: K.Socket, cfg: S.Config, m: Machine, packets: seq<S.Arrival>, chunks: seq<seq<byte>>)
    requires Riscv.Ok(m) && forall p :: p in packets ==> S.TextsWithoutHash(cfg, p)
    requires K.Reachable(s) && s.mutex == None && Carried(s.turns, S.Run(cfg, S.Start(m), packets).loop.out)
    requires Concat(chunks) == s.output && S.Run(cfg, S.Start(m), packets).loop.status != L.Aborted
    ensures var texts := Texts(S.Run(cfg, S.Start(m), packets).loop.out);
      var r, inputs := Expected([], chunks), S.Inputs(cfg, S.Start(m), packets);
      && (Delivered(r) == Connection.FramesOf(texts) && Left([], r) == [] <==> RepliesSent(s.turns))
      && |texts| == L.Count(cfg.ops, inputs, L.Accepted) - L.Count(cfg.ops, inputs, L.SilentRun)
  {
    S.SessionHashFree(cfg, S.Start(m), packets);
    ClientReceives(s, S.Run(cfg, S.Start(m), packets).loop.out, chunks);
    S.SessionReplies(cfg, m, packets);
    TextsCount(S.Run(cfg, S.Start(m), packets).loop.out);
  }
}
