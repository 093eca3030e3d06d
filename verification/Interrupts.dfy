/**
 * When the reader thread of src/gdbstub.c calls `on_interrupt`: for the 0x03 bytes it scans while the main
 * thread is inside `cont`, for each of them once, and for no other byte.
 */
module Interrupts {
  import opened Bytes
  import opened Framing
  import Codec
  import opened Connection
  import opened Protocol
  import opened Pipeline
  import L = MainLoop
  import Q = Requests

  /** The step scans a 0x03. */
  predicate ScansIntr(s: State, l: Label)
  {
    l == R(ScanByte) && s.reader.pc.Scanning? && s.reader.pc.rest != [] && s.reader.pc.rest[0] == 0x03
  }

  /** How many steps of a run scan a 0x03. */
  function IntrScans(s: State, run: seq<Label>): nat
    requires After(s, run).Some?
    decreases |run|
  {
    if run == [] then 0
    else (if ScansIntr(s, run[0]) then 1 else 0) + IntrScans(Next(s, run[0]).value, run[1..])
  }

  /** How many of them come while the main thread runs the target in `cont`. */
  function ContinueScans(s: State, run: seq<Label>): nat
    requires After(s, run).Some?
    decreases |run|
  {
    if run == [] then 0
    else
      (if ScansIntr(s, run[0]) && s.main.pc.Continuing? then 1 else 0)
      + ContinueScans(Next(s, run[0]).value, run[1..])
  }

  /** Calls of `on_interrupt` made, or due next. */
  function Asked(r: Reader): nat
  {
    r.halts + if r.pc.Halting? then 1 else 0
  }

  /** Signals to the queue made, or due next; a call of `on_interrupt` comes before its signal. */
  function Signalled(r: Reader): nat
  {
    r.interrupts + if r.pc.Halting? || r.pc.Signalling? then 1 else 0
  }

  /** `async_io_enable` is on exactly while the main thread is inside `cont`. */
  predicate AsyncTracks(s: State)
  {
    s.shared.asyncIo <==> s.main.pc.Continuing?
  }

  lemma AsyncStep(s: State, l: Label)
    requires AsyncTracks(s) && Next(s, l).Some?
    ensures AsyncTracks(Next(s, l).value)
  {
  }

  lemma ScanStep(s: State, l: Label)
    requires AsyncTracks(s) && Next(s, l).Some?
    ensures var r := Next(s, l).value.reader;
      && Asked(r) == Asked(s.reader) + (if ScansIntr(s, l) && s.main.pc.Continuing? then 1 else 0)
      && Signalled(r) == Signalled(s.reader) + (if ScansIntr(s, l) then 1 else 0)
  {
  }

  lemma {:induction false} ScansCount(s: State, run: seq<Label>)
    requires AsyncTracks(s) && After(s, run).Some?
    ensures var r := After(s, run).value.reader;
      && Asked(r) == Asked(s.reader) + ContinueScans(s, run)
      && Signalled(r) == Signalled(s.reader) + IntrScans(s, run)
    decreases |run|
  {
    if run != [] {
      AsyncStep(s, run[0]);
      ScanStep(s, run[0]);
      ScansCount(Next(s, run[0]).value, run[1..]);
    }
  }

  /**
   * Over every run: the calls of `on_interrupt`, with the one that is due, are the 0x03 bytes scanned
   * while the main thread is inside `cont`; the signals to the queue, with the one that is due, are all
   * 0x03 bytes scanned. Between two bytes both are exact, and a call is made before its signal.
   */
  lemma HaltsExact(rule: PopRule, ops: L.Ops, run: seq<Label>)
    requires After(Init(rule, ops), run).Some?
    ensures var r := After(Init(rule, ops), run).value.reader;
      && r.halts + (if r.pc.Halting? then 1 else 0) == ContinueScans(Init(rule, ops), run)
      && r.interrupts + (if r.pc.Halting? || r.pc.Signalling? then 1 else 0) == IntrScans(Init(rule, ops), run)
  {
    ScansCount(Init(rule, ops), run);
  }

  /** Inside `cont` is where a `c` or a `vCont;c` has led, and nothing else. */
  predicate AskedToContinue(s: State)
  {
    s.main.pc.Continuing? ==> Continues(s.ops, s.main.pc.i)
  }

  lemma {:induction false} ContinuingRun(s: State, run: seq<Label>)
    requires AskedToContinue(s) && After(s, run).Some?
    ensures AskedToContinue(After(s, run).value)
    decreases |run|
  {
    if run != [] {
      ContinuingStep(s, run[0]);
      ContinuingRun(Next(s, run[0]).value, run[1..]);
    }
  }

  lemma ContinuingStep(s: State, l: Label)
    requires AskedToContinue(s) && Next(s, l).Some?
    ensures AskedToContinue(Next(s, l).value)
  {
  }

  /** In every reachable state the packet that the main thread is continuing for is an accepted one of these. */
  lemma ContinuingFor(s: State)
    requires Reachable(s) && s.main.pc.Continuing?
    ensures var f := s.main.pc.i.frame;
      Verifies(f) && s.ops.cont && (Q.Is(f, 'c') || Q.IsVCont(f, 'c'))
  {
    var run: seq<Label> :| After(Init(s.rule, s.ops), run) == Some(s);
    ContinuingRun(Init(s.rule, s.ops), run);
    Q.EventsExact(s.ops, s.main.pc.i.frame, s.main.pc.i.answer);
  }

  // ---------------------------------------------------------------- an input

  /** A client's continue. */
  function ContinueFrame(): seq<byte>
  {
    Ascii("$c#63")
  }

  lemma ContinueText()
    ensures ContinueFrame() == [DOLLAR, 0x63, HASH, 0x36, 0x33]
  {
  }

  lemma ContinueDigits()
    ensures Codec.DecodePair(0x36, 0x33) == 0x63
  {
  }

  lemma ContinueFrames()
    ensures var f := ContinueFrame(); Frames(f) == [f] && Verifies(f) && L.Request(f) == 0x63 && IntrBytes(f) == 0
  {
    ContinueText();
    var f := ContinueFrame();
    assert f[..2] == [DOLLAR, 0x63];
    SingleFrame(f);
    ByteFrame(f, 0x63);
    ContinueDigits();
    NoIntr(f);
  }

  lemma {:induction false} NoIntr(s: seq<byte>)
    requires INTR_CHAR !in s
    ensures IntrBytes(s) == 0
  {
    if s != [] { NoIntr(s[1..]); }
  }

  lemma {:induction false} IntrPart(part: seq<byte>, all: seq<byte>)
    requires part <= all
    ensures IntrBytes(part) <= IntrBytes(all)
  {
    assert all == part + all[|part|..];
    IntrBytesAppend(part, all[|part|..]);
  }

  /** The continue is popped and runs, the reader still before its acknowledgment. */
  lemma ContinueRuns(s: State, p: Pkt) returns (run: seq<Label>, t: State)
    requires s.main == Init(Corrected, s.ops).main && s.shared.queue.items == [p] && p.frame == ContinueFrame()
    requires s.ops.cont
    ensures After(s, run) == Some(t) && t.main.pc.Continuing? && t.reader == s.reader
    ensures t.rule == s.rule && t.ops == s.ops
  {
    var answer := L.Answer(false, [], ActNone);
    var a, s1 := OneStep(s, true, M(Pop));
    ContinueHandled(s1, p, answer);
    var b, s2 := OneStep(s1, true, M(Handle(answer)));
    AfterAppend(s, a, b);
    run, t := a + b, s2;
  }

  lemma ContinueHandled(s: State, p: Pkt, answer: L.Answer)
    requires s.main.pc == Handling(p) && p.frame == ContinueFrame() && s.ops.cont
    ensures var n := Next(s, M(Handle(answer)));
      n.Some? && n.value.main.pc.Continuing? && n.value.reader == s.reader && n.value.rule == s.rule
      && n.value.ops == s.ops
  {
    ContinueFrames();
    assert L.Process(s.ops, p.frame, answer) == L.Resume(true, EventCont);
  }

  /** Then a 0x03 is read, scanned, and answered by a call of `on_interrupt`. */
  lemma IntrHalts(s: State) returns (run: seq<Label>, t: State)
    requires s.reader.pc == Polling && s.reader.halts == 0 && s.main.pc.Continuing? && s.shared.asyncIo
    ensures After(s, run) == Some(t) && t.main.pc.Continuing? && t.reader.halts == 1
    ensures t.rule == s.rule && t.ops == s.ops
  {
    var a, s1 := OneStep(s, true, R(Read(BYTE3)));
    var b, s2 := OneStep(s1, true, R(ScanByte));
    var c, s3 := OneStep(s2, true, R(Halt));
    AfterAppend(s, a, b);
    AfterAppend(s, a + b, c);
    run, t := a + b + c, s3;
  }

  lemma NoHaltYet(s: State)
    requires Within(s, s.ops, ContinueFrame())
    ensures s.reader.pc == Polling ==> s.reader.halts == 0
  {
    ContinueFrames();
    ReachableInv(s);
    IntrPart(Concat(s.reader.chunks), ContinueFrame());
  }

  lemma AsyncReachable(s: State)
    requires Reachable(s)
    ensures AsyncTracks(s)
  {
    var run: seq<Label> :| After(Init(s.rule, s.ops), run) == Some(s);
    AsyncRun(Init(s.rule, s.ops), run);
  }

  lemma {:induction false} AsyncRun(s: State, run: seq<Label>)
    requires AsyncTracks(s) && After(s, run).Some?
    ensures AsyncTracks(After(s, run).value)
    decreases |run|
  {
    if run != [] {
      AsyncStep(s, run[0]);
      AsyncRun(Next(s, run[0]).value, run[1..]);
    }
  }

  /** An input: "$c#63", and a Ctrl-C while the target runs: `on_interrupt` has been called, once. */
  lemma CtrlCHalts(ops: L.Ops) returns (s: State)
    requires ops.cont
    ensures Reachable(s) && s.ops == ops && s.main.pc.Continuing? && s.reader.halts == 1
  {
    ContinueFrames();
    var s0 := ReaderHolds(ops, ContinueFrame(), 0);
    var a, s1 := ContinueRuns(s0, s0.reader.pc.p);
    StaysReachable(s0, a, s1);
    var b, s2 := ReaderPolls(s1);
    StaysReachable(s1, b, s2);
    NoHaltYet(s2);
    AsyncReachable(s2);
    var c, s3 := IntrHalts(s2);
    StaysReachable(s2, c, s3);
    s := s3;
  }
}
