/**
 * The main loop of src/gdbstub.c: checksum, acknowledgment, failure counting, dispatch and the
 * action that follows. What a packet's arguments, the target and the handlers come to is given per
 * packet as an `Answer`.
 */
module MainLoop {
  import opened Bytes
  import opened Framing
  import opened Connection
  import opened Protocol

  const CONN_MAX_FAILURES := 50

  /** Which of the target's operations are present. */
  datatype Ops = Ops(cont: bool, stepi: bool, readReg: bool, writeReg: bool, readMem: bool, writeMem: bool,
                     setBp: bool, delBp: bool, setCpu: bool, getCpu: bool)

  /**
   * What handling one packet depends on besides the packet: whether the handler's assertions on its
   * arguments hold, the reply it forms, and what `cont` or `stepi` returns.
   */
  datatype Answer = Answer(wellFormed: bool, reply: seq<byte>, act: Action)

  /** `Abort` is a failed assertion or a null argument string. */
  datatype Handled = Abort | Handled(reply: Option<seq<byte>>, event: Event, startNoAck: bool)

  /** A handler either replies or asks for the target to run, never both and never neither. */
  predicate ReplyOrRun(h: Handled)
  {
    h.Handled? ==> (h.reply == None <==> h.event == EventCont || h.event == EventStep)
  }

  // ---------------------------------------------------------------- dispatch

  /** The request character: the byte behind '$', or the NUL that replaced '#'. */
  function Request(frame: seq<byte>): byte
    requires |frame| >= 4
  {
    if |frame| == 4 then 0 else frame[1]
  }

  /** The payload behind the request, as the C string the handlers see. */
  function Arguments(frame: seq<byte>): seq<byte>
    requires |frame| >= 4
  {
    if |frame| == 4 then [] else CStr(frame[2..|frame| - 3])
  }

  /** The part of a string before the first `sep`. */
  function NameOf(s: seq<byte>, sep: byte): seq<byte>
  {
    s[..IndexOf(s, sep)]
  }

  function Send(reply: seq<byte>): (h: Handled)
    ensures ReplyOrRun(h)
  {
    Handled(Some(reply), EventNone, false)
  }

  /** A handler that forms its own reply. */
  function Answered(present: bool, a: Answer): (h: Handled)
    ensures ReplyOrRun(h)
  {
    if !present then Send(Ascii("E01"))
    else if a.wellFormed && Sendable(a.reply) then Send(a.reply)
    else Abort
  }

  function Resume(present: bool, event: Event): (h: Handled)
    requires event == EventCont || event == EventStep
    ensures ReplyOrRun(h)
  {
    if present then Handled(None, event, false) else Send(Ascii("E01"))
  }

  const SEMICOLON: byte := 0x3b

  /** `process_vpacket` and `process_vcont`: one action, no thread selector. */
  function VPacket(ops: Ops, args: seq<byte>, a: Answer): (h: Handled)
    ensures ReplyOrRun(h)
  {
    var name := NameOf(args, SEMICOLON);
    if name == Ascii("Cont") then
      var k := |name| + 1;
      if SEMICOLON !in args then Abort
      else if k < |args| && args[k] == 0x63 then Resume(ops.cont, EventCont)
      else if k < |args| && args[k] == 0x73 then Resume(ops.stepi, EventStep)
      else Send(Ascii("E01"))
    else if name == Ascii("Cont?") then Answered(true, a)
    else Send([])
  }

  /** `process_general_set` */
  function GeneralSet(args: seq<byte>): (h: Handled)
    ensures ReplyOrRun(h)
  {
    if NameOf(args, COLON) == Ascii("StartNoAckMode") then Handled(Some(Ascii("OK")), EventNone, true)
    else Send([])
  }

  /** `gdbstub_process_packet` */
  function Process(ops: Ops, frame: seq<byte>, a: Answer): (h: Handled)
    requires |frame| >= 4
    ensures ReplyOrRun(h)
  {
    var r := Request(frame);
    if r == 'c' as byte then Resume(ops.cont, EventCont)
    else if r == 'g' as byte || r == 'p' as byte then Answered(ops.readReg, a)
    else if r == 'm' as byte then Answered(ops.readMem, a)
    else if r == 'q' as byte then Answered(true, a)
    else if r == 'Q' as byte then GeneralSet(Arguments(frame))
    else if r == 's' as byte then Resume(ops.stepi, EventStep)
    else if r == 'v' as byte then VPacket(ops, Arguments(frame), a)
    else if r == 'z' as byte then Answered(ops.delBp, a)
    else if r == '?' as byte then Send(Ascii("S05"))
    else if r == 'D' as byte then Handled(Some(Ascii("OK")), EventDetach, false)
    else if r == 'G' as byte || r == 'P' as byte then Answered(ops.writeReg, a)
    else if r == 'H' as byte then Answered(ops.setCpu, a)
    else if r == 'M' as byte || r == 'X' as byte then Answered(ops.writeMem, a)
    else if r == 'T' as byte then Send(Ascii("OK"))
    else if r == 'Z' as byte then Answered(ops.setBp, a)
    else Send([])
  }

  /** `gdbstub_handle_event` */
  function HandleEvent(event: Event, a: Answer): Action
  {
    match event
    case EventCont => a.act
    case EventStep => a.act
    case EventDetach => ActShutdown
    case EventNone => ActNone
  }

  // ---------------------------------------------------------------- the loop body

  datatype Status = Running | Returned(ok: bool) | Aborted

  datatype State = State(noAck: bool, failures: nat, out: seq<Out>, status: Status)

  const START := State(false, 0, [], Running)

  /** Frames handed over by the reader have at least four bytes. */
  type Frame = f: seq<byte> | |f| >= 4 witness [DOLLAR, HASH, 0x30, 0x30]

  datatype Input = Input(frame: Frame, answer: Answer)

  type Inputs = seq<Input>

  function Acknowledge(s: State, ok: bool): State
  {
    if s.noAck then s else s.(out := s.out + [if ok then Ack else Nack])
  }

  /** An accepted packet, once it is acknowledged. */
  function Accept(ops: Ops, acked: State, i: Input): State
  {
    match Process(ops, i.frame, i.answer)
    case Abort => acked.(failures := 0, status := Aborted)
    case Handled(reply, event, startNoAck) =>
      var sent := if reply == None then acked.out else acked.out + [Reply(reply.value)];
      var act := HandleEvent(event, i.answer);
      State(acked.noAck || startNoAck, 0,
            if act == ActResume then sent + [Reply(Ascii("S05"))] else sent,
            if act == ActShutdown then Returned(true) else Running)
  }

  /** One popped packet, from the checksum to the action. */
  function Step(ops: Ops, s: State, i: Input): State
  {
    var ok := Verifies(i.frame);
    var acked := Acknowledge(s, ok);
    if ok then Accept(ops, acked, i)
    else
      acked.(failures := s.failures + 1,
             status := if s.failures + 1 >= CONN_MAX_FAILURES then Returned(false) else Running)
  }

  /** The loop over the packets it pops; it stops when it returns. */
  function Run(ops: Ops, s: State, inputs: Inputs): State
    decreases |inputs|
  {
    if inputs == [] || s.status != Running then s
    else Run(ops, Step(ops, s, inputs[0]), inputs[1..])
  }

  /** How many of the packets the loop pops before it returns. */
  function Popped(ops: Ops, s: State, inputs: Inputs): (n: nat)
    ensures n <= |inputs|
    decreases |inputs|
  {
    if inputs == [] || s.status != Running then 0
    else 1 + Popped(ops, Step(ops, s, inputs[0]), inputs[1..])
  }

  /** One more packet, after a run in which none made the loop return. */
  lemma {:induction false} RunSnoc(ops: Ops, s: State, inputs: Inputs, i: Input)
    requires s.status == Running && Run(ops, s, inputs).status == Running
    ensures Run(ops, s, inputs + [i]) == Step(ops, Run(ops, s, inputs), i)
    ensures Popped(ops, s, inputs) == |inputs| && Popped(ops, s, inputs + [i]) == |inputs| + 1
    decreases |inputs|
  {
    var all := inputs + [i];
    if inputs == [] {
      assert all[1..] == [];
    } else {
      var next := Step(ops, s, inputs[0]);
      assert all[1..] == inputs[1..] + [i];
      RunSnoc(ops, next, inputs[1..], i);
    }
  }

  // ---------------------------------------------------------------- failure counting

  /** Length of the trailing run of packets with a bad checksum. */
  function TrailingBad(inputs: Inputs): (n: nat)
    ensures n <= |inputs|
    decreases |inputs|
  {
    if inputs == [] || Verifies(inputs[|inputs| - 1].frame) then 0 else 1 + TrailingBad(inputs[..|inputs| - 1])
  }

  /** One packet before the others only matters if all of them are bad. */
  lemma {:induction false} TrailingCons(i: Input, rest: Inputs)
    ensures TrailingBad([i] + rest) ==
      if TrailingBad(rest) == |rest| && !Verifies(i.frame) then |rest| + 1 else TrailingBad(rest)
    decreases |rest|
  {
    var all := [i] + rest;
    if rest == [] {
      assert all[..0] == [];
    } else {
      var front := rest[..|rest| - 1];
      assert all[..|all| - 1] == [i] + front && all[|all| - 1] == rest[|rest| - 1];
      TrailingCons(i, front);
    }
  }

  /**
   * After any history the failure count is the length of its trailing run of bad packets; it stays
   * below 50 while the loop goes on, and the loop returns false exactly when 50 bad packets came in
   * a row.
   */
  lemma {:induction false} FailuresCounted(ops: Ops, s: State, inputs: Inputs)
    requires s.status == Running && s.failures < CONN_MAX_FAILURES
    ensures var n, r := Popped(ops, s, inputs), Run(ops, s, inputs);
      var bad := TrailingBad(inputs[..n]);
      var count := if bad == n then s.failures + n else bad;
      && r.failures == count
      && (r.status == Returned(false) <==> count == CONN_MAX_FAILURES)
      && (r.status == Running ==> count < CONN_MAX_FAILURES && n == |inputs|)
    decreases |inputs|
  {
    if inputs != [] {
      var i, rest, next := inputs[0], inputs[1..], Step(ops, s, inputs[0]);
      var n := Popped(ops, s, inputs);
      FailuresStep(ops, s, i);
      assert inputs[..n] == [i] + rest[..n - 1];
      TrailingCons(i, rest[..n - 1]);
      if next.status == Running {
        FailuresCounted(ops, next, rest);
      } else {
        assert rest[..n - 1] == [];
      }
    }
  }

  lemma FailuresStep(ops: Ops, s: State, i: Input)
    requires s.failures < CONN_MAX_FAILURES
    ensures var r := Step(ops, s, i);
      && r.failures == (if Verifies(i.frame) then 0 else s.failures + 1)
      && (r.status == Returned(false) <==> r.failures == CONN_MAX_FAILURES)
      && (r.status == Running ==> r.failures < CONN_MAX_FAILURES)
  {
  }

  // ---------------------------------------------------------------- acknowledgments

  function Acks(out: seq<Out>): seq<Out>
  {
    if out == [] then [] else (if out[0].Reply? then [] else [out[0]]) + Acks(out[1..])
  }

  function AckFor(i: Input): Out
  {
    if Verifies(i.frame) then Ack else Nack
  }

  function AcksFor(inputs: Inputs): seq<Out>
  {
    seq(|inputs|, k requires 0 <= k < |inputs| => AckFor(inputs[k]))
  }

  /** The packet is an accepted QStartNoAckMode. */
  predicate StartsNoAck(ops: Ops, i: Input)
  {
    Verifies(i.frame) && Process(ops, i.frame, i.answer).Handled? && Process(ops, i.frame, i.answer).startNoAck
  }

  /** For each packet, whether it ends acknowledgment. */
  function Starts(ops: Ops, inputs: Inputs): (flags: seq<bool>)
    ensures |flags| == |inputs|
  {
    if inputs == [] then [] else [StartsNoAck(ops, inputs[0])] + Starts(ops, inputs[1..])
  }

  /** Up to and including the first that is set, or all. */
  function UpTo(flags: seq<bool>): (n: nat)
    ensures n <= |flags|
  {
    if flags == [] then 0 else if flags[0] then 1 else 1 + UpTo(flags[1..])
  }

  /** How many packets are acknowledged: those up to and including the one that ends acknowledgment. */
  function AckedCount(ops: Ops, inputs: Inputs): (n: nat)
    ensures n <= |inputs|
  {
    UpTo(Starts(ops, inputs))
  }

  /** None before the last counted is set, and the last one is unless all were counted. */
  lemma {:induction false} UpToFirst(flags: seq<bool>, k: nat)
    ensures var n := UpTo(flags);
      && (k + 1 < n ==> !flags[k])
      && (n < |flags| ==> n > 0 && flags[n - 1])
  {
    if flags != [] && !flags[0] {
      UpToFirst(flags[1..], if k == 0 then 0 else k - 1);
    }
  }

  /**
   * No packet before the last acknowledged one ends acknowledgment, and the last one does unless all
   * were acknowledged.
   */
  lemma AckedCountMeaning(ops: Ops, inputs: Inputs, k: nat)
    ensures var n := AckedCount(ops, inputs);
      && (k + 1 < n ==> !StartsNoAck(ops, inputs[k]))
      && (n < |inputs| ==> n > 0 && StartsNoAck(ops, inputs[n - 1]))
  {
    UpToFirst(Starts(ops, inputs), k);
    if k < |inputs| { StartsAt(ops, inputs, k); }
    if 0 < AckedCount(ops, inputs) { StartsAt(ops, inputs, AckedCount(ops, inputs) - 1); }
  }

  lemma {:induction false} StartsAt(ops: Ops, inputs: Inputs, k: nat)
    requires k < |inputs|
    ensures Starts(ops, inputs)[k] == StartsNoAck(ops, inputs[k])
  {
    if k > 0 { StartsAt(ops, inputs[1..], k - 1); }
  }

  lemma StartsCons(ops: Ops, i: Input, rest: Inputs)
    ensures Starts(ops, [i] + rest) == [StartsNoAck(ops, i)] + Starts(ops, rest)
  {
    assert ([i] + rest)[1..] == rest;
  }

  lemma UpToCons(flag: bool, rest: seq<bool>)
    ensures UpTo([flag] + rest) == if flag then 1 else 1 + UpTo(rest)
  {
    assert ([flag] + rest)[1..] == rest;
  }

  lemma AcksForOne(i: Input, rest: Inputs)
    ensures AcksFor([i] + rest) == [AckFor(i)] + AcksFor(rest)
  {
    var all := [i] + rest;
    assert all[0] == i && forall k :: 0 <= k < |rest| ==> all[k + 1] == rest[k];
  }

  lemma AcksForCons(i: Input, rest: Inputs, n: nat)
    requires n <= |rest|
    ensures AcksFor(([i] + rest)[..n + 1]) == [AckFor(i)] + AcksFor(rest[..n])
  {
    assert ([i] + rest)[..n + 1] == [i] + rest[..n];
    AcksForOne(i, rest[..n]);
  }

  lemma {:induction false} AcksAppend(a: seq<Out>, b: seq<Out>)
    ensures Acks(a + b) == Acks(a) + Acks(b)
  {
    if a == [] {
      assert a + b == b;
    } else {
      assert (a + b)[1..] == a[1..] + b;
      AcksAppend(a[1..], b);
      Reassociate(if a[0].Reply? then [] else [a[0]], Acks(a[1..]), Acks(b));
    }
  }

  /** What one packet adds to the output. */
  function Added(ops: Ops, noAck: bool, i: Input): seq<Out>
  {
    (if noAck then [] else [AckFor(i)]) + Replies(ops, i)
  }

  /** The replies one packet causes: that of its handler, and `S05` after a run that resumed. */
  function Replies(ops: Ops, i: Input): seq<Out>
  {
    if !Verifies(i.frame) then []
    else
      match Process(ops, i.frame, i.answer)
      case Abort => []
      case Handled(reply, event, _) =>
        (if reply == None then [] else [Reply(reply.value)])
        + (if HandleEvent(event, i.answer) == ActResume then [Reply(Ascii("S05"))] else [])
  }

  lemma StepAdds(ops: Ops, s: State, i: Input)
    ensures Step(ops, s, i).out == s.out + Added(ops, s.noAck, i)
    ensures Step(ops, s, i).noAck == (s.noAck || StartsNoAck(ops, i))
  {
    var acked := Acknowledge(s, Verifies(i.frame));
    var mark: seq<Out> := if s.noAck then [] else [AckFor(i)];
    assert acked.out == s.out + mark;
    Reassociate(s.out, mark, Replies(ops, i));
    if Verifies(i.frame) && Process(ops, i.frame, i.answer).Handled? {
      var h := Process(ops, i.frame, i.answer);
      var reply: seq<Out> := if h.reply == None then [] else [Reply(h.reply.value)];
      Reassociate(acked.out, reply, if HandleEvent(h.event, i.answer) == ActResume then [Reply(Ascii("S05"))] else []);
    }
  }

  lemma AcksOfReplies(ops: Ops, i: Input)
    ensures Acks(Replies(ops, i)) == []
  {
    AllReplies(Replies(ops, i));
  }

  lemma {:induction false} AllReplies(out: seq<Out>)
    requires forall o :: o in out ==> o.Reply?
    ensures Acks(out) == []
  {
    if out != [] { AllReplies(out[1..]); }
  }

  lemma AcksOfAdded(ops: Ops, noAck: bool, i: Input)
    ensures Acks(Added(ops, noAck, i)) == if noAck then [] else [AckFor(i)]
  {
    AcksOfReplies(ops, i);
    if noAck {
      assert [] + Replies(ops, i) == Replies(ops, i);
    } else {
      AcksAppend([AckFor(i)], Replies(ops, i));
      assert Acks([AckFor(i)]) == [AckFor(i)];
    }
  }

  lemma PoppedStep(ops: Ops, s: State, inputs: Inputs)
    requires Popped(ops, s, inputs) > 0
    ensures var next, rest := Step(ops, s, inputs[0]), inputs[1..];
      var n := Popped(ops, next, rest);
      && Popped(ops, s, inputs) == n + 1 && Run(ops, s, inputs) == Run(ops, next, rest)
      && inputs[..n + 1] == [inputs[0]] + rest[..n]
  {
  }

  /**
   * The main loop acknowledges each packet it pops with exactly one `+` or `-`, by its checksum, up
   * to and including the accepted QStartNoAckMode, and none after.
   */
  lemma {:induction false} AckDiscipline(ops: Ops, s: State, inputs: Inputs)
    ensures var popped := inputs[..Popped(ops, s, inputs)];
      Acks(Run(ops, s, inputs).out) ==
      Acks(s.out) + if s.noAck then [] else AcksFor(popped[..AckedCount(ops, popped)])
    decreases |inputs|
  {
    if Popped(ops, s, inputs) > 0 {
      var i, rest, next := inputs[0], inputs[1..], Step(ops, s, inputs[0]);
      PoppedStep(ops, s, inputs);
      AckDiscipline(ops, next, rest);
      StepAdds(ops, s, i);
      AcksOfAdded(ops, s.noAck, i);
      AcksAppend(s.out, Added(ops, s.noAck, i));
      var more := rest[..Popped(ops, next, rest)];
      var acked := more[..AckedCount(ops, more)];
      AckedStep(ops, i, more);
      AcksJoin(Acks(s.out), if s.noAck then [] else [AckFor(i)],
               if next.noAck then [] else AcksFor(acked));
    } else {
      assert inputs[..0] == [];
      assert Acks(s.out) + [] == Acks(s.out);
    }
  }

  lemma AcksJoin(a: seq<Out>, b: seq<Out>, c: seq<Out>)
    ensures a + b + c == a + (b + c) && a + [] == a
  {
  }

  /** No-ack mode never reverts: it is on exactly once a packet popped so far has started it. */
  lemma {:induction false} NoAckMode(ops: Ops, s: State, inputs: Inputs)
    ensures Run(ops, s, inputs).noAck <==>
            s.noAck || exists k :: 0 <= k < Popped(ops, s, inputs) && StartsNoAck(ops, inputs[k])
    decreases |inputs|
  {
    if Popped(ops, s, inputs) > 0 {
      var rest, next := inputs[1..], Step(ops, s, inputs[0]);
      PoppedStep(ops, s, inputs);
      NoAckMode(ops, next, rest);
      StepAdds(ops, s, inputs[0]);
      assert forall k :: 0 < k < Popped(ops, s, inputs) ==> inputs[k] == rest[k - 1];
      assert forall k :: 0 <= k < |rest| ==> rest[k] == inputs[k + 1];
    }
  }

  lemma AckedStep(ops: Ops, i: Input, rest: Inputs)
    ensures AcksFor(([i] + rest)[..AckedCount(ops, [i] + rest)]) ==
      [AckFor(i)] + if StartsNoAck(ops, i) then [] else AcksFor(rest[..AckedCount(ops, rest)])
  {
    StartsCons(ops, i, rest);
    UpToCons(StartsNoAck(ops, i), Starts(ops, rest));
    AcksForCons(i, rest, if StartsNoAck(ops, i) then 0 else AckedCount(ops, rest));
    assert AcksFor(rest[..0]) == [];
  }

  // ---------------------------------------------------------------- replies

  function RepliesIn(out: seq<Out>): seq<Out>
  {
    if out == [] then [] else (if out[0].Reply? then [out[0]] else []) + RepliesIn(out[1..])
  }

  lemma {:induction false} RepliesInAppend(a: seq<Out>, b: seq<Out>)
    ensures RepliesIn(a + b) == RepliesIn(a) + RepliesIn(b)
  {
    if a == [] {
      assert a + b == b;
    } else {
      assert (a + b)[1..] == a[1..] + b;
      RepliesInAppend(a[1..], b);
      Reassociate(if a[0].Reply? then [a[0]] else [], RepliesIn(a[1..]), RepliesIn(b));
    }
  }

  lemma {:induction false} OnlyReplies(out: seq<Out>)
    requires forall o :: o in out ==> o.Reply?
    ensures RepliesIn(out) == out
  {
    if out != [] { OnlyReplies(out[1..]); }
  }

  /** The replies the packets cause, in order. */
  function AllRepliesFor(ops: Ops, inputs: Inputs): seq<Out>
  {
    if inputs == [] then [] else Replies(ops, inputs[0]) + AllRepliesFor(ops, inputs[1..])
  }

  /** An accepted continue or step that the target ends without asking to resume. */
  predicate Silent(ops: Ops, i: Input)
  {
    Verifies(i.frame) && Process(ops, i.frame, i.answer).Handled?
    && (Process(ops, i.frame, i.answer).event == EventCont || Process(ops, i.frame, i.answer).event == EventStep)
    && i.answer.act != ActResume
  }

  predicate Aborts(ops: Ops, i: Input)
  {
    Verifies(i.frame) && Process(ops, i.frame, i.answer).Abort?
  }

  /** Exactly one reply per accepted packet, at once or after the run it resumed; none for a rejected or silent one. */
  lemma OneReply(ops: Ops, i: Input)
    ensures |Replies(ops, i)| == if Verifies(i.frame) && !Silent(ops, i) && !Aborts(ops, i) then 1 else 0
  {
    if Verifies(i.frame) && Process(ops, i.frame, i.answer).Handled? {
      var h := Process(ops, i.frame, i.answer);
      RepliesOf(ops, i, h);
    }
  }

  lemma RepliesOf(ops: Ops, i: Input, h: Handled)
    requires Verifies(i.frame) && Process(ops, i.frame, i.answer) == h && h.Handled?
    ensures |Replies(ops, i)| ==
            (if h.reply == None then 0 else 1) + if HandleEvent(h.event, i.answer) == ActResume then 1 else 0
  {
  }

  lemma RepliesAreReplies(ops: Ops, i: Input)
    ensures RepliesIn(Replies(ops, i)) == Replies(ops, i)
  {
    OnlyReplies(Replies(ops, i));
  }

  datatype Kind = Accepted | SilentRun | Aborting

  predicate Is(ops: Ops, i: Input, kind: Kind)
  {
    match kind
    case Accepted => Verifies(i.frame)
    case SilentRun => Silent(ops, i)
    case Aborting => Aborts(ops, i)
  }

  function Count(ops: Ops, inputs: Inputs, kind: Kind): (n: nat)
    ensures n <= |inputs|
  {
    if inputs == [] then 0 else (if Is(ops, inputs[0], kind) then 1 else 0) + Count(ops, inputs[1..], kind)
  }

  lemma RepliesOfAdded(ops: Ops, noAck: bool, i: Input)
    ensures RepliesIn(Added(ops, noAck, i)) == Replies(ops, i)
  {
    RepliesAreReplies(ops, i);
    if noAck {
      assert [] + Replies(ops, i) == Replies(ops, i);
    } else {
      RepliesInAppend([AckFor(i)], Replies(ops, i));
      assert RepliesIn([AckFor(i)]) == [] && [] + Replies(ops, i) == Replies(ops, i);
    }
  }

  /** The replies on the wire are those of the popped packets, in their order, and nothing else. */
  lemma {:induction false} RepliesInOrder(ops: Ops, s: State, inputs: Inputs)
    ensures RepliesIn(Run(ops, s, inputs).out) ==
            RepliesIn(s.out) + AllRepliesFor(ops, inputs[..Popped(ops, s, inputs)])
    decreases |inputs|
  {
    if Popped(ops, s, inputs) > 0 {
      var i, rest, next := inputs[0], inputs[1..], Step(ops, s, inputs[0]);
      PoppedStep(ops, s, inputs);
      RepliesInOrder(ops, next, rest);
      StepAdds(ops, s, i);
      RepliesOfAdded(ops, s.noAck, i);
      RepliesInAppend(s.out, Added(ops, s.noAck, i));
      Reassociate(RepliesIn(s.out), Replies(ops, i), AllRepliesFor(ops, rest[..Popped(ops, next, rest)]));
      RepliesCons(ops, i, rest[..Popped(ops, next, rest)]);
    } else {
      assert inputs[..0] == [];
      assert RepliesIn(s.out) + [] == RepliesIn(s.out);
    }
  }

  lemma RepliesCons(ops: Ops, i: Input, rest: Inputs)
    ensures AllRepliesFor(ops, [i] + rest) == Replies(ops, i) + AllRepliesFor(ops, rest)
  {
    assert ([i] + rest)[1..] == rest;
  }

  /**
   * Conservation: replies sent equal accepted packets less the silent runs (and less a packet whose
   * handler aborts).
   */
  lemma {:induction false} RepliesConserved(ops: Ops, inputs: Inputs)
    ensures |AllRepliesFor(ops, inputs)| ==
            Count(ops, inputs, Accepted) - Count(ops, inputs, SilentRun) - Count(ops, inputs, Aborting)
    decreases |inputs|
  {
    if inputs != [] {
      OneReply(ops, inputs[0]);
      RepliesConserved(ops, inputs[1..]);
    }
  }

  /** The loop is never past a packet whose handler aborted. */
  lemma {:induction false} AbortStops(ops: Ops, s: State, inputs: Inputs)
    requires s.status != Aborted
    ensures var n := Popped(ops, s, inputs);
      Count(ops, inputs[..n], Aborting) == if Run(ops, s, inputs).status == Aborted then 1 else 0
    decreases |inputs|
  {
    if Popped(ops, s, inputs) > 0 {
      PoppedStep(ops, s, inputs);
      var rest, next := inputs[1..], Step(ops, s, inputs[0]);
      if next.status != Aborted {
        AbortStops(ops, next, rest);
      } else {
        assert rest[..0] == [];
      }
      CountCons(ops, inputs[0], rest[..Popped(ops, next, rest)], Aborting);
    }
  }

  lemma CountCons(ops: Ops, i: Input, rest: Inputs, kind: Kind)
    ensures Count(ops, [i] + rest, kind) == (if Is(ops, i, kind) then 1 else 0) + Count(ops, rest, kind)
  {
    assert ([i] + rest)[1..] == rest;
  }

  /** On every run without a failed assertion, frames sent are accepted packets less silent runs. */
  lemma ReplyConservation(ops: Ops, inputs: Inputs)
    requires Run(ops, START, inputs).status != Aborted
    ensures var popped := inputs[..Popped(ops, START, inputs)];
      |RepliesIn(Run(ops, START, inputs).out)| ==
      Count(ops, popped, Accepted) - Count(ops, popped, SilentRun)
  {
    RepliesInOrder(ops, START, inputs);
    RepliesConserved(ops, inputs[..Popped(ops, START, inputs)]);
    AbortStops(ops, START, inputs);
  }

  // ---------------------------------------------------------------- replies that can be framed

  lemma FixedWithoutHash()
    ensures HASH !in Ascii("OK") && HASH !in Ascii("E01") && HASH !in Ascii("S05")
  {
    TextWithoutHash("OK");
    TextWithoutHash("E01");
    TextWithoutHash("S05");
  }

  predicate Hashless(h: Handled)
  {
    h.Handled? && h.reply.Some? ==> HASH !in h.reply.value
  }

  lemma AnsweredHashless(present: bool, a: Answer)
    requires HASH !in a.reply
    ensures Hashless(Answered(present, a))
  {
    FixedWithoutHash();
  }

  lemma ResumeHashless(present: bool, event: Event)
    requires event == EventCont || event == EventStep
    ensures Hashless(Resume(present, event))
  {
    FixedWithoutHash();
  }

  lemma VPacketHashless(ops: Ops, args: seq<byte>, a: Answer)
    requires HASH !in a.reply
    ensures Hashless(VPacket(ops, args, a))
  {
    FixedWithoutHash();
  }

  lemma GeneralSetHashless(args: seq<byte>)
    ensures Hashless(GeneralSet(args))
  {
    FixedWithoutHash();
  }

  /** The requests answered with a text of the handler's own. */
  predicate Formed(r: byte)
  {
    || r == 'g' as byte || r == 'p' as byte || r == 'm' as byte || r == 'q' as byte || r == 'z' as byte
    || r == 'G' as byte || r == 'P' as byte || r == 'H' as byte || r == 'M' as byte || r == 'X' as byte
    || r == 'Z' as byte
  }

  lemma FormedHashless(ops: Ops, frame: Frame, a: Answer)
    requires HASH !in a.reply && Formed(Request(frame))
    ensures Hashless(Process(ops, frame, a))
  {
    AnsweredHashless(true, a);
    AnsweredHashless(false, a);
  }

  lemma RestHashless(ops: Ops, frame: Frame, a: Answer)
    requires HASH !in a.reply && !Formed(Request(frame))
    ensures Hashless(Process(ops, frame, a))
  {
    FixedWithoutHash();
    ResumeHashless(ops.cont, EventCont);
    ResumeHashless(ops.stepi, EventStep);
    VPacketHashless(ops, Arguments(frame), a);
    GeneralSetHashless(Arguments(frame));
  }

  /** No reply brings a '#' of its own. */
  lemma ReplyWithoutHash(ops: Ops, frame: Frame, a: Answer)
    requires HASH !in a.reply
    ensures Hashless(Process(ops, frame, a))
  {
    if Formed(Request(frame)) {
      FormedHashless(ops, frame, a);
    } else {
      RestHashless(ops, frame, a);
    }
  }

  lemma AddedHashFree(ops: Ops, noAck: bool, i: Input)
    requires HASH !in i.answer.reply
    ensures HashFree(Added(ops, noAck, i))
  {
    ReplyWithoutHash(ops, i.frame, i.answer);
    FixedWithoutHash();
  }

  lemma StepHashFree(ops: Ops, s: State, i: Input)
    requires HashFree(s.out) && HASH !in i.answer.reply
    ensures HashFree(Step(ops, s, i).out)
  {
    StepAdds(ops, s, i);
    AddedHashFree(ops, s.noAck, i);
    HashFreeAppend(s.out, Added(ops, s.noAck, i));
  }

  // ---------------------------------------------------------------- what ends acknowledgment

  lemma FormedKeepsAcks(ops: Ops, frame: Frame, a: Answer)
    requires Formed(Request(frame))
    ensures Process(ops, frame, a).Handled? ==> !Process(ops, frame, a).startNoAck
  {
  }

  lemma VPacketKeepsAcks(ops: Ops, args: seq<byte>, a: Answer)
    ensures VPacket(ops, args, a).Handled? ==> !VPacket(ops, args, a).startNoAck
  {
  }

  lemma RestKeepsAcks(ops: Ops, frame: Frame, a: Answer)
    requires !Formed(Request(frame)) && Request(frame) != 'Q' as byte
    ensures Process(ops, frame, a).Handled? ==> !Process(ops, frame, a).startNoAck
  {
    VPacketKeepsAcks(ops, Arguments(frame), a);
  }

  /** Only a `Q` packet does, and by its text alone. */
  lemma EndsByText(ops: Ops, frame: Frame, a: Answer)
    ensures Process(ops, frame, a).Handled? && Process(ops, frame, a).startNoAck
      <==> Request(frame) == 'Q' as byte && GeneralSet(Arguments(frame)).startNoAck
  {
    if Formed(Request(frame)) {
      FormedKeepsAcks(ops, frame, a);
    } else if Request(frame) == 'Q' as byte {
      assert Process(ops, frame, a) == GeneralSet(Arguments(frame));
    } else {
      RestKeepsAcks(ops, frame, a);
    }
  }
}
