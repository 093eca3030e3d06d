/**
 * The reader thread and the main thread of src/gdbstub.c as one step system. Every critical section,
 * atomic access, read, scan of a byte and handled packet is one step; the two threads' steps
 * interleave arbitrarily, and what reads, allocations, the target and the scheduler do is given by
 * the labels of the steps. Each thread touches its own state and the shared one.
 *
 * The steps use the same functions the framer, the queue and the main loop are proved against. A
 * pop that is undefined behaviour has no step.
 */
module Pipeline {
  import opened Bytes
  import opened Framing
  import opened Protocol
  import Q = PacketQueue
  import L = MainLoop

  /** A packet in memory; `id` tells allocations apart. */
  datatype Pkt = Pkt(id: nat, frame: L.Frame)

  // ---------------------------------------------------------------- shared state

  /** The main thread in `pthread_cond_wait`, or not. */
  datatype Waiter = NoWaiter | Asleep | Woken

  datatype Shared = Shared(queue: Q.Queue<Pkt>, waiter: Waiter, stop: bool, asyncIo: bool)

  /** `pthread_cond_signal` and `pthread_cond_broadcast`: wake the waiter, if there is one. */
  function Notify(sh: Shared): Shared
  {
    if sh.waiter == Asleep then sh.(waiter := Woken) else sh
  }

  // ---------------------------------------------------------------- the reader thread

  datatype ReaderPc =
    | Polling
    | Scanning(rest: seq<byte>)
    | Halting(rest: seq<byte>)
    | Signalling(rest: seq<byte>)
    | Draining
    | Holding(p: Pkt)
    | Acking(p: Pkt)
    | Leaving
    | ReaderDone

  /**
   * `chunks` is what it has read, `taken` the packets popped off the buffer, `dropped` those that could
   * not be pushed.
   */
  datatype Reader = Reader(pc: ReaderPc, buf: seq<byte>, chunks: seq<seq<byte>>, taken: seq<Pkt>, dropped: set<nat>,
                           freed: multiset<nat>, acked: seq<nat>, interrupts: nat, halts: nat)

  datatype ReaderLabel =
    | PollAgain
    | SeeStop
    | Read(c: seq<byte>)
    | ReadEnds
    | ScanByte
    | Halt
    | SignalInterrupt
    | TakePacket(past: Option<byte>)
    | NoPacketLeft
    | PushPacket(hasMemory: bool)
    | TryAck(sent: bool)
    | SignalShutdown

  datatype Moved<T> = Stuck | Moved(thread: T, shared: Shared)

  /** `socket_reader` */
  function ReaderNext(rule: PopRule, r: Reader, sh: Shared, l: ReaderLabel): Moved<Reader>
  {
    match (r.pc, l)
    case (Polling, PollAgain) => if sh.stop then Stuck else Moved(r, sh)
    case (Polling, SeeStop) => if sh.stop then Moved(r.(pc := Leaving), sh) else Stuck
    case (Polling, Read(c)) => if c == [] then Stuck else Moved(Received(r, c), sh)
    case (Polling, ReadEnds) => Moved(r.(pc := Leaving), sh)
    case (Scanning(rest), ScanByte) => Moved(r.(pc := Scanned(rest, sh.asyncIo)), sh)
    case (Halting(rest), Halt) => Moved(r.(halts := r.halts + 1, pc := Signalling(rest)), sh)
    case (Signalling(rest), SignalInterrupt) =>
      Moved(r.(interrupts := r.interrupts + 1, pc := Scanning(rest)),
            Notify(sh.(queue := sh.queue.(interrupted := true))))
    case (Draining, NoPacketLeft) =>
      var t := SkipToDollar(r.buf);
      if Complete(rule, t) then Stuck else Moved(Emptied(r, t), sh)
    case (Draining, TakePacket(past)) =>
      var d := TakeNext(rule, SkipToDollar(r.buf), past);
      if d == Undefined then Stuck else Moved(Taking(r, d.frame, d.rest), sh)
    case (Holding(p), PushPacket(hasMemory)) =>
      if hasMemory then Moved(r.(pc := Acking(p)), Notify(sh.(queue := Q.Pushed(sh.queue, p))))
      else Moved(r.(dropped := r.dropped + {p.id}, freed := r.freed + multiset{p.id}, pc := Draining), sh)
    case (Acking(p), TryAck(sent)) =>
      Moved(r.(acked := r.acked + (if sent then [p.id] else []), pc := Draining), sh)
    case (Leaving, SignalShutdown) => Moved(r.(pc := ReaderDone), Notify(sh.(queue := sh.queue.(shutdown := true))))
    case _ => Stuck
  }

  function Received(r: Reader, c: seq<byte>): Reader
  {
    r.(buf := r.buf + c, chunks := r.chunks + [c], pc := Scanning(c))
  }

  function Taking(r: Reader, frame: L.Frame, rest: seq<byte>): Reader
  {
    var p := Pkt(|r.taken|, frame);
    r.(buf := rest, taken := r.taken + [p], pc := Holding(p))
  }

  /** The inner loop has ended with `t` left in the buffer. */
  function Emptied(r: Reader, t: seq<byte>): Reader
  {
    r.(buf := t, pc := Polling)
  }

  /** One byte of the interrupt scan. */
  function Scanned(rest: seq<byte>, asyncIo: bool): ReaderPc
  {
    if rest == [] then Draining
    else if rest[0] == INTR_CHAR then (if asyncIo then Halting(rest[1..]) else Signalling(rest[1..]))
    else Scanning(rest[1..])
  }

  /** `pktbuf_is_complete` and `pktbuf_pop_packet` on a buffer that starts with its '$'. */
  function TakeNext(rule: PopRule, t: seq<byte>, past: Option<byte>): (d: Taken)
    requires t != [] ==> t[0] == DOLLAR
    ensures d.Took? ==> |d.frame| >= 4
  {
    if !Complete(rule, t) then Undefined
    else
      assert t[IndexOf(t, HASH)] == HASH;
      Take(rule, t, past)
  }

  // ---------------------------------------------------------------- the main thread

  datatype MainPc =
    | Popping
    | Waiting
    | CheckingShutdown
    | ClearingInterrupt
    | Handling(p: Pkt)
    | Continuing(i: L.Input)
    | Stopping
    | ClosingQueue
    | Joining
    | Destroying
    | Closed
    | Dead(p: Pkt)

  /** `inputs` are the packets processed, `loop` the state they have brought the main loop to. */
  datatype Main = Main(pc: MainPc, popped: seq<Pkt>, inputs: L.Inputs, loop: L.State, cleanExit: bool, emptyTurns: nat,
                       freed: multiset<nat>, destroyed: seq<Pkt>)

  datatype MainLabel =
    | Pop
    | Wake(spurious: bool)
    | CheckShutdown
    | ClearInterrupt
    | Handle(answer: L.Answer)
    | ContReturns
    | SetStop
    | CloseSignal
    | Join
    | Destroy

  /** The packet asks for a continue: `cont` runs while the reader may interrupt it. */
  predicate Continues(ops: L.Ops, i: L.Input)
  {
    L.Connection.Verifies(i.frame) && L.Process(ops, i.frame, i.answer).Handled?
    && L.Process(ops, i.frame, i.answer).event == EventCont
  }

  /** The packet has been processed: the loop goes on or returns. */
  function Finish(ops: L.Ops, m: Main, i: L.Input): Main
  {
    var loop := L.Step(ops, m.loop, i);
    m.(loop := loop, inputs := m.inputs + [i], pc := if loop.status == L.Running then Popping else Stopping)
  }

  /** A popped packet up to the run of the target it may ask for. */
  function HandleNext(ops: L.Ops, m: Main, sh: Shared, p: Pkt, answer: L.Answer): Moved<Main>
  {
    var i := L.Input(p.frame, answer);
    var f := m.(freed := m.freed + multiset{p.id});
    if L.Aborts(ops, i) then Moved(Finish(ops, m, i).(pc := Dead(p)), sh)
    else if Continues(ops, i) then Moved(f.(pc := Continuing(i)), sh.(asyncIo := true))
    else Moved(Finish(ops, f, i), sh)
  }

  function PopNext(m: Main, sh: Shared): Moved<Main>
  {
    match Q.PopResult(sh.queue)
    case Block => Moved(m.(pc := Waiting), sh.(waiter := Asleep))
    case Null => Moved(m.(pc := CheckingShutdown), sh)
    case Item(p) => Moved(m.(popped := m.popped + [p], pc := Handling(p)), sh.(queue := Q.Popped(sh.queue)))
  }

  /** `gdbstub_run`, then `gdbstub_close`. */
  function MainNext(ops: L.Ops, m: Main, sh: Shared, readerDone: bool, l: MainLabel): Moved<Main>
  {
    match (m.pc, l)
    case (Popping, Pop) => PopNext(m, sh)
    case (Waiting, Wake(spurious)) =>
      if sh.waiter == Woken || spurious then Moved(m.(pc := Popping), sh.(waiter := NoWaiter)) else Stuck
    case (CheckingShutdown, CheckShutdown) =>
      if sh.queue.shutdown then Moved(m.(pc := Stopping, cleanExit := true), sh)
      else Moved(m.(pc := ClearingInterrupt), sh)
    case (ClearingInterrupt, ClearInterrupt) =>
      Moved(m.(emptyTurns := m.emptyTurns + 1, pc := Popping), sh.(queue := sh.queue.(interrupted := false)))
    case (Handling(p), Handle(answer)) => HandleNext(ops, m, sh, p, answer)
    case (Continuing(i), ContReturns) => Moved(Finish(ops, m, i), sh.(asyncIo := false))
    case (Stopping, SetStop) => Moved(m.(pc := ClosingQueue), sh.(stop := true))
    case (ClosingQueue, CloseSignal) => Moved(m.(pc := Joining), Notify(sh.(queue := sh.queue.(shutdown := true))))
    case (Joining, Join) => if readerDone then Moved(m.(pc := Destroying), sh) else Stuck
    case (Destroying, Destroy) =>
      Moved(m.(freed := m.freed + IdBag(sh.queue.items), destroyed := sh.queue.items, pc := Closed),
            sh.(queue := sh.queue.(items := [])))
    case _ => Stuck
  }

  /** The ids of packets, each as often as it occurs. */
  function IdBag(ps: seq<Pkt>): multiset<nat>
  {
    if ps == [] then multiset{} else IdBag(ps[..|ps| - 1]) + multiset{ps[|ps| - 1].id}
  }

  // ---------------------------------------------------------------- runs

  datatype State = State(rule: PopRule, ops: L.Ops, reader: Reader, shared: Shared, main: Main)

  function Init(rule: PopRule, ops: L.Ops): State
  {
    State(rule, ops,
          Reader(Polling, [], [], [], {}, multiset{}, [], 0, 0),
          Shared(Q.Empty(), NoWaiter, false, false),
          Main(Popping, [], [], L.START, false, 0, multiset{}, []))
  }

  datatype Label = R(r: ReaderLabel) | M(m: MainLabel)

  function Next(s: State, l: Label): Option<State>
  {
    match l
    case R(rl) => (
      match ReaderNext(s.rule, s.reader, s.shared, rl)
      case Stuck => None
      case Moved(r, sh) => Some(s.(reader := r, shared := sh)))
    case M(ml) => (
      match MainNext(s.ops, s.main, s.shared, s.reader.pc == ReaderDone, ml)
      case Stuck => None
      case Moved(m, sh) => Some(s.(main := m, shared := sh)))
  }

  /** The state after a run, if every step in it was possible. */
  function After(s: State, run: seq<Label>): Option<State>
    decreases |run|
  {
    if run == [] then Some(s)
    else
      var n := Next(s, run[0]);
      if n == None then None else After(n.value, run[1..])
  }

  // ---------------------------------------------------------------- waking and waiting

  /**
   * No lost wakeup: a main thread that waits without a pending signal has nothing to wake up for.
   * No busy loop: every turn without a packet is paid for by an interrupt.
   */
  ghost predicate Wakes(s: State)
  {
    var q := s.shared.queue;
    && (s.shared.waiter == Asleep ==> Q.MustWait(q))
    && (s.shared.waiter != NoWaiter <==> s.main.pc == Waiting)
    && (s.main.pc == CheckingShutdown ==> q.shutdown || q.interrupted)
    && (s.main.pc == ClearingInterrupt ==> q.interrupted)
    && s.main.emptyTurns + (if q.interrupted then 1 else 0) <= s.reader.interrupts
  }

  lemma WakesReader(s: State, l: ReaderLabel, n: Moved<Reader>)
    requires Wakes(s) && n == ReaderNext(s.rule, s.reader, s.shared, l) && n.Moved?
    ensures Wakes(s.(reader := n.thread, shared := n.shared))
  {
  }

  lemma WakesMain(s: State, l: MainLabel, n: Moved<Main>)
    requires Wakes(s) && n == MainNext(s.ops, s.main, s.shared, s.reader.pc == ReaderDone, l) && n.Moved?
    ensures Wakes(s.(main := n.thread, shared := n.shared))
  {
  }

  // ---------------------------------------------------------------- interrupts

  /** How many bytes are 0x03. */
  function IntrBytes(s: seq<byte>): nat
  {
    if s == [] then 0 else (if s[0] == INTR_CHAR then 1 else 0) + IntrBytes(s[1..])
  }

  lemma {:induction false} IntrBytesAppend(a: seq<byte>, b: seq<byte>)
    ensures IntrBytes(a + b) == IntrBytes(a) + IntrBytes(b)
  {
    if a == [] {
      assert a + b == b;
    } else {
      assert (a + b)[1..] == a[1..] + b;
      IntrBytesAppend(a[1..], b);
    }
  }

  /** The 0x03 bytes read but not signalled yet. */
  function Unsignalled(pc: ReaderPc): nat
  {
    match pc
    case Scanning(rest) => IntrBytes(rest)
    case Halting(rest) => 1 + IntrBytes(rest)
    case Signalling(rest) => 1 + IntrBytes(rest)
    case _ => 0
  }

  /** Every 0x03 byte received is signalled once, inside a packet or not; at most as many halts are asked for. */
  ghost predicate CountsInterrupts(r: Reader)
  {
    && r.interrupts + Unsignalled(r.pc) == IntrBytes(Concat(r.chunks))
    && r.halts <= r.interrupts + if r.pc.Signalling? then 1 else 0
  }

  lemma CountsRead(r: Reader, c: seq<byte>)
    requires CountsInterrupts(r) && r.pc == Polling
    ensures CountsInterrupts(Received(r, c))
  {
    ConcatSnoc(r.chunks, c);
    IntrBytesAppend(Concat(r.chunks), c);
  }

  /** A step other than a read: what is to be signalled goes down as what was signalled goes up. */
  lemma CountsElse(rule: PopRule, r: Reader, sh: Shared, l: ReaderLabel, n: Moved<Reader>)
    requires n == ReaderNext(rule, r, sh, l) && n.Moved? && !l.Read?
    ensures n.thread.interrupts + Unsignalled(n.thread.pc) == r.interrupts + Unsignalled(r.pc)
    ensures n.thread.chunks == r.chunks
    ensures r.halts <= r.interrupts + (if r.pc.Signalling? then 1 else 0)
        ==> n.thread.halts <= n.thread.interrupts + if n.thread.pc.Signalling? then 1 else 0
  {
  }

  lemma CountsInterruptsStep(rule: PopRule, r: Reader, sh: Shared, l: ReaderLabel, n: Moved<Reader>)
    requires CountsInterrupts(r) && n == ReaderNext(rule, r, sh, l) && n.Moved?
    ensures CountsInterrupts(n.thread)
  {
    if l.Read? {
      CountsRead(r, l.c);
    } else {
      CountsElse(rule, r, sh, l, n);
    }
  }

  // ---------------------------------------------------------------- the packets found

  function PktFrames(ps: seq<Pkt>): (fs: seq<seq<byte>>)
    ensures |fs| == |ps|
  {
    seq(|ps|, i requires 0 <= i < |ps| => ps[i].frame)
  }

  /** The packets taken, then those still in the buffer, are the packets of the bytes received. */
  ghost predicate Found(rule: PopRule, taken: seq<Pkt>, buf: seq<byte>, all: seq<byte>)
  {
    && PktFrames(taken) + Frames(buf) == Frames(all)
    && Tail(buf) == Tail(all)
    && (rule == AsWritten ==> EndsWithPacket(buf))
  }

  ghost predicate FindsFrames(rule: PopRule, r: Reader)
  {
    FramerRight(rule, r.chunks) ==>
      Found(rule, r.taken, r.buf, Concat(r.chunks)) && (Settled(r.pc) ==> r.buf == Tail(Concat(r.chunks)))
  }

  lemma FindsRead(rule: PopRule, r: Reader, c: seq<byte>)
    requires FindsFrames(rule, r) && r.pc == Polling && FramerRight(rule, r.chunks + [c])
    ensures Found(rule, r.taken, r.buf + c, Concat(r.chunks + [c]))
  {
    var all := Concat(r.chunks);
    ConcatSnoc(r.chunks, c);
    assert [] + all == all;
    LockstepSnoc([], r.chunks, c);
    FramesAppend(all, c);
    TailUnfinished(all);
    assert PktFrames(r.taken) + [] == PktFrames(r.taken);
  }

  lemma PktFramesSnoc(ps: seq<Pkt>, p: Pkt)
    ensures PktFrames(ps + [p]) == PktFrames(ps) + [p.frame]
  {
  }

  lemma EndsEmpty()
    ensures EndsWithPacket([])
  {
    assert SkipToDollar([]) == [];
  }

  lemma TakesWhole(rule: PopRule, buf: seq<byte>, t: seq<byte>, past: Option<byte>)
    requires t == SkipToDollar(buf) && (rule == AsWritten ==> EndsWithPacket(buf))
    requires TakeNext(rule, t, past).Took?
    ensures HasFrame(t) && TakeNext(rule, t, past) == Took(t[..FrameLength(t)], t[FrameLength(t)..])
    ensures rule == AsWritten ==> t[FrameLength(t)..] == []
  {
  }

  /** A pop takes the next packet of the grammar. */
  lemma FindsTake(taken: seq<Pkt>, buf: seq<byte>, t: seq<byte>, n: nat, all: seq<byte>, p: Pkt)
    requires t == SkipToDollar(buf) && HasFrame(t) && n == FrameLength(t) && p.frame == t[..n]
    requires PktFrames(taken) + Frames(buf) == Frames(all)
    ensures PktFrames(taken + [p]) + Frames(t[n..]) == Frames(all) && Tail(t[n..]) == Tail(buf)
  {
    GrammarStep(buf, t, n);
    PktFramesSnoc(taken, p);
    Reassociate(PktFrames(taken), [p.frame], Frames(t[n..]));
  }

  /** When no packet is left, the buffer is the unfinished tail. */
  lemma FindsNone(rule: PopRule, buf: seq<byte>, t: seq<byte>)
    requires t == SkipToDollar(buf) && !Complete(rule, t)
    ensures Frames(t) == Frames(buf) && Tail(t) == t == Tail(buf)
    ensures rule == AsWritten ==> EndsWithPacket(t)
  {
    if t != [] { IndexOfIs(t, DOLLAR, 0); }
    SameStart(t, buf);
  }

  lemma RightBefore(rule: PopRule, chunks: seq<seq<byte>>, c: seq<byte>)
    requires FramerRight(rule, chunks + [c])
    ensures FramerRight(rule, chunks)
  {
    LockstepSnoc([], chunks, c);
  }

  lemma FindsReadStep(rule: PopRule, r: Reader, c: seq<byte>)
    requires FindsFrames(rule, r) && r.pc == Polling
    ensures FindsFrames(rule, Received(r, c))
  {
    if FramerRight(rule, r.chunks + [c]) {
      RightBefore(rule, r.chunks, c);
      FindsRead(rule, r, c);
    }
  }

  lemma FindsTakeStep(rule: PopRule, r: Reader, past: Option<byte>, d: Taken)
    requires FindsFrames(rule, r) && d == TakeNext(rule, SkipToDollar(r.buf), past) && d.Took?
    ensures FindsFrames(rule, Taking(r, d.frame, d.rest))
  {
    if FramerRight(rule, r.chunks) {
      FoundTake(rule, r.taken, r.buf, Concat(r.chunks), past, d, Pkt(|r.taken|, d.frame));
    }
  }

  lemma FoundTake(rule: PopRule, taken: seq<Pkt>, buf: seq<byte>, all: seq<byte>, past: Option<byte>, d: Taken, p: Pkt)
    requires Found(rule, taken, buf, all)
    requires d == TakeNext(rule, SkipToDollar(buf), past) && d.Took? && p.frame == d.frame
    ensures Found(rule, taken + [p], d.rest, all)
  {
    var t := SkipToDollar(buf);
    TakesWhole(rule, buf, t, past);
    FindsTake(taken, buf, t, FrameLength(t), all, p);
    EndsEmpty();
  }

  lemma FindsNoneStep(rule: PopRule, r: Reader, t: seq<byte>)
    requires FindsFrames(rule, r) && t == SkipToDollar(r.buf) && !Complete(rule, t)
    ensures FindsFrames(rule, Emptied(r, t))
  {
    FindsNone(rule, r.buf, t);
  }

  predicate Settled(pc: ReaderPc)
  {
    pc.Polling? || pc.Leaving? || pc.ReaderDone?
  }

  lemma FindsSame(rule: PopRule, r: Reader, n: Reader)
    requires FindsFrames(rule, r)
    requires n.buf == r.buf && n.chunks == r.chunks && n.taken == r.taken && (Settled(n.pc) ==> Settled(r.pc))
    ensures FindsFrames(rule, n)
  {
  }

  /** What a step of the reader does to its buffer. */
  predicate Buffers(rule: PopRule, r: Reader, l: ReaderLabel, n: Reader)
  {
    var t := SkipToDollar(r.buf);
    match l
    case Read(c) => r.pc == Polling && n == Received(r, c)
    case TakePacket(past) => var d := TakeNext(rule, t, past); d.Took? && n == Taking(r, d.frame, d.rest)
    case NoPacketLeft => !Complete(rule, t) && n == Emptied(r, t)
    case _ => n.buf == r.buf && n.chunks == r.chunks && n.taken == r.taken && (Settled(n.pc) ==> Settled(r.pc))
  }

  lemma NextBuffers(rule: PopRule, r: Reader, sh: Shared, l: ReaderLabel, n: Moved<Reader>)
    requires n == ReaderNext(rule, r, sh, l) && n.Moved?
    ensures Buffers(rule, r, l, n.thread)
  {
  }

  lemma FindsFramesStep(rule: PopRule, r: Reader, l: ReaderLabel, n: Reader)
    requires FindsFrames(rule, r) && Buffers(rule, r, l, n)
    ensures FindsFrames(rule, n)
  {
    match l
    case Read(c) => FindsReadStep(rule, r, c);
    case TakePacket(past) => FindsTakeStep(rule, r, past, TakeNext(rule, SkipToDollar(r.buf), past));
    case NoPacketLeft => FindsNoneStep(rule, r, SkipToDollar(r.buf));
    case _ => FindsSame(rule, r, n);
  }

  // ---------------------------------------------------------------- order

  /** The packets that were not dropped. */
  function Kept(ps: seq<Pkt>, dropped: set<nat>): seq<Pkt>
  {
    if ps == [] then []
    else
      var p := ps[|ps| - 1];
      Kept(ps[..|ps| - 1], dropped) + if p.id in dropped then [] else [p]
  }

  /** Packets are numbered as they are taken, and the reader holds the one taken last. */
  ghost predicate Numbered(r: Reader)
  {
    && (forall i :: 0 <= i < |r.taken| ==> r.taken[i].id == i)
    && (forall d :: d in r.dropped ==> d < |r.taken|)
    && (r.pc.Holding? || r.pc.Acking? ==>
          r.taken != [] && r.pc.p == r.taken[|r.taken| - 1] && r.pc.p.id !in r.dropped)
  }

  lemma NumberedStep(rule: PopRule, r: Reader, sh: Shared, l: ReaderLabel)
    requires Numbered(r) && ReaderNext(rule, r, sh, l).Moved?
    ensures Numbered(ReaderNext(rule, r, sh, l).thread)
  {
  }

  function Hand(pc: ReaderPc): seq<Pkt>
  {
    if pc.Holding? then [pc.p] else []
  }

  lemma {:induction false} KeptIgnores(ps: seq<Pkt>, dropped: set<nat>, id: nat)
    requires forall p :: p in ps ==> p.id != id
    ensures Kept(ps, dropped + {id}) == Kept(ps, dropped)
  {
    if ps != [] { KeptIgnores(ps[..|ps| - 1], dropped, id); }
  }

  lemma KeptTake(r: Reader, p: Pkt)
    requires Numbered(r) && p.id == |r.taken|
    ensures Kept(r.taken + [p], r.dropped) == Kept(r.taken, r.dropped) + [p]
  {
    assert (r.taken + [p])[..|r.taken|] == r.taken;
  }

  lemma KeptDrop(r: Reader)
    requires Numbered(r) && r.pc.Holding?
    ensures Kept(r.taken, r.dropped) == Kept(r.taken, r.dropped + {r.pc.p.id}) + [r.pc.p]
  {
    KeptIgnores(r.taken[..|r.taken| - 1], r.dropped, r.pc.p.id);
    assert Kept(r.taken[..|r.taken| - 1], r.dropped) + [] == Kept(r.taken[..|r.taken| - 1], r.dropped);
  }

  /** The reader has been joined before anything is destroyed. */
  ghost predicate Retired(s: State)
  {
    && (s.main.pc == Destroying || s.main.pc == Closed ==> s.reader.pc == ReaderDone)
    && (s.main.destroyed != [] ==> s.main.pc == Closed)
    && (s.main.pc == Closed ==> s.shared.queue.items == [])
  }

  lemma RetiredStep(s: State, l: Label)
    requires Retired(s) && Next(s, l).Some?
    ensures Retired(Next(s, l).value)
  {
  }

  /**
   * The packets popped by the main thread, those destroyed at the end, those queued and the one in
   * the reader's hand are, in this order, the packets taken from the buffer less the dropped ones.
   */
  ghost predicate InOrder(r: Reader, sh: Shared, m: Main)
  {
    Kept(r.taken, r.dropped) == m.popped + m.destroyed + sh.queue.items + Hand(r.pc)
  }

  lemma AppendLast<T>(a: seq<T>, b: seq<T>, x: T)
    ensures a + b + [x] == a + (b + [x]) && a + (b + [x]) + [] == a + (b + [x])
    ensures a + b + [] == a + b
  {
  }

  lemma InOrderReader(rule: PopRule, r: Reader, sh: Shared, m: Main, l: ReaderLabel)
    requires Numbered(r) && InOrder(r, sh, m) && ReaderNext(rule, r, sh, l).Moved?
    ensures InOrder(ReaderNext(rule, r, sh, l).thread, ReaderNext(rule, r, sh, l).shared, m)
  {
    var n := ReaderNext(rule, r, sh, l).thread;
    var done := m.popped + m.destroyed;
    match l
    case TakePacket(_) =>
      KeptTake(r, n.pc.p);
      AppendLast(done, sh.queue.items, n.pc.p);
    case PushPacket(hasMemory) =>
      KeptDrop(r);
      AppendLast(done, sh.queue.items, r.pc.p);
      if !hasMemory {
        LastCancels(Kept(n.taken, n.dropped), done + sh.queue.items, r.pc.p);
      }
    case _ =>
  }

  lemma LastCancels<T>(a: seq<T>, b: seq<T>, x: T)
    requires a + [x] == b + [x]
    ensures a == b
  {
    assert (a + [x])[..|a|] == a && (b + [x])[..|b|] == b;
  }

  lemma MoveFirst<T>(a: seq<T>, b: seq<T>)
    requires b != []
    ensures a + [] + b == (a + [b[0]]) + [] + b[1..]
  {
  }

  lemma InOrderMain(ops: L.Ops, r: Reader, sh: Shared, m: Main, readerDone: bool, l: MainLabel)
    requires InOrder(r, sh, m) && MainNext(ops, m, sh, readerDone, l).Moved?
    requires m.destroyed == []
    ensures InOrder(r, MainNext(ops, m, sh, readerDone, l).shared, MainNext(ops, m, sh, readerDone, l).thread)
  {
    if l == Pop && sh.queue.items != [] {
      MoveFirst(m.popped, sh.queue.items);
    } else if l == Destroy {
      AppendLast(m.popped, sh.queue.items, Pkt(0, [0, 0, 0, 0]));
    }
  }

  // ---------------------------------------------------------------- memory

  lemma {:induction false} IdBagAppend(a: seq<Pkt>, b: seq<Pkt>)
    ensures IdBag(a + b) == IdBag(a) + IdBag(b)
  {
    if b == [] {
      assert a + b == a;
    } else {
      assert (a + b)[..|a + b| - 1] == a + b[..|b| - 1];
      IdBagAppend(a, b[..|b| - 1]);
    }
  }

  /**
   * What the main thread has freed: the packets it popped, but for the one it is processing, and those
   * it destroyed.
   */
  ghost predicate MainFrees(m: Main)
  {
    && (m.pc.Handling? || m.pc.Dead? ==> m.popped != [] && m.popped[|m.popped| - 1] == m.pc.p)
    && m.freed == IdBag(Processed(m)) + IdBag(m.destroyed)
    && (m.destroyed != [] ==> m.pc == Closed)
  }

  function Processed(m: Main): seq<Pkt>
  {
    if (m.pc.Handling? || m.pc.Dead?) && m.popped != [] then m.popped[..|m.popped| - 1] else m.popped
  }

  lemma FreesPop(m: Main, p: Pkt)
    requires MainFrees(m) && m.pc == Popping
    ensures MainFrees(m.(popped := m.popped + [p], pc := Handling(p)))
  {
    assert (m.popped + [p])[..|m.popped|] == m.popped;
  }

  /** A handled packet: freed before the target runs, or not at all when an assertion failed. */
  lemma FreesHandled(m: Main, n: Main)
    requires MainFrees(m) && m.pc.Handling? && n.popped == m.popped && n.destroyed == m.destroyed
    requires if n.pc.Dead? then n.pc == Dead(m.pc.p) && n.freed == m.freed
             else !n.pc.Handling? && n.freed == m.freed + multiset{m.pc.p.id}
    ensures MainFrees(n)
  {
  }

  lemma FreesSame(m: Main, n: Main)
    requires MainFrees(m) && n.popped == m.popped && n.destroyed == m.destroyed && n.freed == m.freed
    requires !m.pc.Handling? && !m.pc.Dead? && m.pc != Closed && !n.pc.Handling? && !n.pc.Dead?
    ensures MainFrees(n)
  {
  }

  lemma FreesHandle(ops: L.Ops, m: Main, sh: Shared, answer: L.Answer)
    requires MainFrees(m) && m.pc.Handling?
    ensures MainFrees(HandleNext(ops, m, sh, m.pc.p, answer).thread)
  {
    FreesHandled(m, HandleNext(ops, m, sh, m.pc.p, answer).thread);
  }

  /** A step other than popping and processing a packet. */
  predicate Aside(m: Main, n: Main)
  {
    && n.popped == m.popped && n.inputs == m.inputs && n.loop == m.loop
    && !OnPacket(m.pc) && !OnPacket(n.pc) && m.pc != Closed
    && n.cleanExit == (m.cleanExit || (InLoop(m.pc) && !InLoop(n.pc))) && (InLoop(n.pc) ==> InLoop(m.pc))
    && (if m.pc == Destroying then n.pc == Closed && n.freed == m.freed + IdBag(n.destroyed)
        else n.destroyed == m.destroyed && n.freed == m.freed)
  }

  predicate OnPacket(pc: MainPc)
  {
    pc.Handling? || pc.Continuing? || pc.Dead?
  }

  lemma NextAside(ops: L.Ops, m: Main, sh: Shared, readerDone: bool, l: MainLabel, n: Moved<Main>)
    requires n == MainNext(ops, m, sh, readerDone, l) && n.Moved? && !l.Pop? && !l.Handle? && !l.ContReturns?
    ensures Aside(m, n.thread)
  {
  }

  lemma FreesAside(m: Main, n: Main)
    requires MainFrees(m) && Aside(m, n)
    ensures MainFrees(n)
  {
  }

  lemma FreesPops(ops: L.Ops, m: Main, sh: Shared)
    requires MainFrees(m) && m.pc == Popping
    ensures MainFrees(PopNext(m, sh).thread)
  {
    var n := PopNext(m, sh).thread;
    if n.pc.Handling? {
      FreesPop(m, n.pc.p);
    } else {
      FreesSame(m, n);
    }
  }

  lemma MainFreesStep(ops: L.Ops, m: Main, sh: Shared, readerDone: bool, l: MainLabel)
    requires MainFrees(m) && MainNext(ops, m, sh, readerDone, l).Moved?
    ensures MainFrees(MainNext(ops, m, sh, readerDone, l).thread)
  {
    match l
    case Pop => FreesPops(ops, m, sh);
    case Handle(answer) => FreesHandle(ops, m, sh, answer);
    case ContReturns => FreesSame(m, Finish(ops, m, m.pc.i));
    case _ =>
      var n := MainNext(ops, m, sh, readerDone, l);
      NextAside(ops, m, sh, readerDone, l, n);
      FreesAside(m, n.thread);
  }

  ghost predicate ReaderFrees(r: Reader)
  {
    r.freed == multiset(r.dropped)
  }

  lemma ReaderFreesStep(rule: PopRule, r: Reader, sh: Shared, l: ReaderLabel)
    requires Numbered(r) && ReaderFrees(r) && ReaderNext(rule, r, sh, l).Moved?
    ensures ReaderFrees(ReaderNext(rule, r, sh, l).thread)
  {
    if r.pc.Holding? {
      assert multiset(r.dropped + {r.pc.p.id}) == multiset(r.dropped) + multiset{r.pc.p.id};
    }
  }

  // ---------------------------------------------------------------- the main loop on what it pops

  function FramesIn(inputs: L.Inputs): (fs: seq<seq<byte>>)
    ensures |fs| == |inputs|
  {
    seq(|inputs|, i requires 0 <= i < |inputs| => inputs[i].frame)
  }

  /** What the loop has been through: the popped packets but for the one in progress. */
  function Finished(m: Main): seq<Pkt>
  {
    if (m.pc.Handling? || m.pc.Continuing?) && m.popped != [] then m.popped[..|m.popped| - 1] else m.popped
  }

  /** The main loop's state is what its proved function makes of the popped packets. */
  ghost predicate LoopRuns(ops: L.Ops, m: Main)
  {
    && m.loop == L.Run(ops, L.START, m.inputs) && L.Popped(ops, L.START, m.inputs) == |m.inputs|
    && FramesIn(m.inputs) == PktFrames(Finished(m))
    && (m.pc.Handling? ==> m.popped != [] && m.popped[|m.popped| - 1] == m.pc.p)
    && (m.pc.Continuing? ==> m.popped != [] && m.popped[|m.popped| - 1].frame == m.pc.i.frame && !L.Aborts(ops, m.pc.i))
    && (m.pc.Dead? <==> m.loop.status == L.Aborted)
    && (m.loop.status == L.Running <==> m.cleanExit || InLoop(m.pc))
    && (InLoop(m.pc) ==> !m.cleanExit)
  }

  predicate InLoop(pc: MainPc)
  {
    pc.Popping? || pc.Waiting? || pc.CheckingShutdown? || pc.ClearingInterrupt? || pc.Handling? || pc.Continuing?
  }

  /** Processing the packet in progress is one more step of the loop. */
  lemma FinishRuns(ops: L.Ops, m: Main, i: L.Input)
    requires LoopRuns(ops, m) && (m.pc.Handling? || m.pc.Continuing?)
    requires i.frame == m.popped[|m.popped| - 1].frame
    ensures var n := Finish(ops, m, i);
      && n.loop == L.Run(ops, L.START, n.inputs) && L.Popped(ops, L.START, n.inputs) == |n.inputs|
      && FramesIn(n.inputs) == PktFrames(m.popped)
      && (n.loop.status == L.Aborted <==> L.Aborts(ops, i))
  {
    var n := Finish(ops, m, i);
    L.RunSnoc(ops, L.START, m.inputs, i);
    assert FramesIn(n.inputs) == FramesIn(m.inputs) + [i.frame];
    PktFramesLast(m.popped);
  }

  lemma PktFramesLast(ps: seq<Pkt>)
    requires ps != []
    ensures PktFrames(ps) == PktFrames(ps[..|ps| - 1]) + [ps[|ps| - 1].frame]
  {
  }

  /** The packet in progress has been processed; `n` is where that leads. */
  lemma RunsProcessed(ops: L.Ops, m: Main, i: L.Input, n: Main)
    requires LoopRuns(ops, m) && (m.pc.Handling? || m.pc.Continuing?)
    requires i.frame == m.popped[|m.popped| - 1].frame
    requires var f := Finish(ops, m, i);
      && n.loop == f.loop && n.inputs == f.inputs && n.popped == m.popped && n.cleanExit == m.cleanExit
      && (if L.Aborts(ops, i) then n.pc.Dead? else n.pc == f.pc)
    ensures LoopRuns(ops, n)
  {
    FinishRuns(ops, m, i);
  }

  lemma RunsHandle(ops: L.Ops, m: Main, sh: Shared, answer: L.Answer)
    requires LoopRuns(ops, m) && m.pc.Handling?
    ensures LoopRuns(ops, HandleNext(ops, m, sh, m.pc.p, answer).thread)
  {
    var i := L.Input(m.pc.p.frame, answer);
    var n := HandleNext(ops, m, sh, m.pc.p, answer).thread;
    if !n.pc.Continuing? { RunsProcessed(ops, m, i, n); }
  }

  lemma RunsContinued(ops: L.Ops, m: Main)
    requires LoopRuns(ops, m) && m.pc.Continuing?
    ensures LoopRuns(ops, Finish(ops, m, m.pc.i))
  {
    RunsProcessed(ops, m, m.pc.i, Finish(ops, m, m.pc.i));
  }

  lemma RunsPop(ops: L.Ops, m: Main, sh: Shared)
    requires LoopRuns(ops, m) && m.pc == Popping
    ensures LoopRuns(ops, PopNext(m, sh).thread)
  {
    var n := PopNext(m, sh).thread;
    if n.pc.Handling? {
      assert (m.popped + [n.pc.p])[..|m.popped|] == m.popped;
    }
  }

  lemma RunsAside(ops: L.Ops, m: Main, n: Main)
    requires LoopRuns(ops, m) && Aside(m, n)
    ensures LoopRuns(ops, n)
  {
  }

  lemma LoopRunsStep(ops: L.Ops, m: Main, sh: Shared, readerDone: bool, l: MainLabel)
    requires LoopRuns(ops, m) && MainNext(ops, m, sh, readerDone, l).Moved?
    ensures LoopRuns(ops, MainNext(ops, m, sh, readerDone, l).thread)
  {
    match l
    case Pop => RunsPop(ops, m, sh);
    case Handle(answer) => RunsHandle(ops, m, sh, answer);
    case ContReturns => RunsContinued(ops, m);
    case _ =>
      var n := MainNext(ops, m, sh, readerDone, l);
      NextAside(ops, m, sh, readerDone, l, n);
      RunsAside(ops, m, n.thread);
  }

  // ---------------------------------------------------------------- the end of a run

  predicate QueueClosed(pc: MainPc)
  {
    pc == Joining || pc == Destroying || pc == Closed
  }

  /** Who raised which flag: the queue is shut down by the leaving reader or by the close. */
  ghost predicate Flags(s: State)
  {
    && (s.reader.pc == ReaderDone ==> s.shared.queue.shutdown)
    && (s.shared.queue.shutdown && !QueueClosed(s.main.pc) ==> s.reader.pc == ReaderDone)
    && (s.shared.stop <==> s.main.pc == ClosingQueue || QueueClosed(s.main.pc))
    && (s.shared.asyncIo <==> s.main.pc.Continuing?)
    && (s.shared.queue.interrupted ==> s.reader.interrupts > 0)
    && (s.main.cleanExit ==> s.main.pc == Stopping || s.main.pc == ClosingQueue || QueueClosed(s.main.pc))
  }

  lemma FlagsReader(s: State, l: ReaderLabel, n: Moved<Reader>)
    requires Flags(s) && n == ReaderNext(s.rule, s.reader, s.shared, l) && n.Moved?
    ensures Flags(s.(reader := n.thread, shared := n.shared))
  {
  }

  lemma FlagsMain(s: State, l: MainLabel, n: Moved<Main>)
    requires Flags(s) && n == MainNext(s.ops, s.main, s.shared, s.reader.pc == ReaderDone, l) && n.Moved?
    ensures Flags(s.(main := n.thread, shared := n.shared))
  {
  }

  /** No more packets will come, and none waits. */
  predicate Dry(s: State)
  {
    (s.reader.pc == Leaving || s.reader.pc == ReaderDone) && s.shared.queue.items == [] && s.main.destroyed == []
  }

  lemma DryStep(s: State, l: Label)
    requires Dry(s) && Next(s, l).Some?
    ensures Dry(Next(s, l).value)
  {
  }

  /** Without interrupts, a pop that returns NULL means the end of the stream. */
  ghost predicate Quiet(s: State)
  {
    s.reader.interrupts == 0 && (s.main.pc == CheckingShutdown || s.main.cleanExit) ==> Dry(s)
  }

  lemma QuietStep(s: State, l: Label)
    requires Quiet(s) && Flags(s) && Retired(s) && Next(s, l).Some?
    ensures Quiet(Next(s, l).value)
  {
    if Dry(s) { DryStep(s, l); }
  }

  // ---------------------------------------------------------------- the reader's acknowledgments

  /**
   * The packets acknowledged so far, in order, each once; none was dropped, and none is still in the
   * reader's hands.
   */
  ghost predicate AcksPushed(r: Reader)
  {
    && (forall i, j :: 0 <= i < j < |r.acked| ==> r.acked[i] < r.acked[j])
    && (forall id :: id in r.acked ==> id !in r.dropped && id < |r.taken|)
    && (forall id :: id in r.acked && (r.pc.Holding? || r.pc.Acking?) ==> id < |r.taken| - 1)
  }

  predicate InHands(pc: ReaderPc)
  {
    pc.Holding? || pc.Acking?
  }

  lemma AcksSame(r: Reader, n: Reader)
    requires AcksPushed(r) && n.acked == r.acked && n.dropped == r.dropped && n.taken == r.taken
    requires InHands(n.pc) ==> InHands(r.pc)
    ensures AcksPushed(n)
  {
  }

  lemma AcksTake(r: Reader, n: Reader)
    requires AcksPushed(r) && n.acked == r.acked && n.dropped == r.dropped && |n.taken| == |r.taken| + 1
    ensures AcksPushed(n)
  {
  }

  lemma AcksDrop(r: Reader, n: Reader)
    requires AcksPushed(r) && Numbered(r) && r.pc.Holding? && n.pc == Draining
    requires n.acked == r.acked && n.dropped == r.dropped + {r.pc.p.id} && n.taken == r.taken
    ensures AcksPushed(n)
  {
  }

  lemma AcksLog(r: Reader, n: Reader)
    requires AcksPushed(r) && Numbered(r) && r.pc.Acking? && n.pc == Draining
    requires n.acked == r.acked + [r.pc.p.id] && n.dropped == r.dropped && n.taken == r.taken
    ensures AcksPushed(n)
  {
    assert r.pc.p.id == |r.taken| - 1;
    forall i, j | 0 <= i < j < |n.acked| ensures n.acked[i] < n.acked[j] {
      assert r.acked[i] in r.acked;
    }
  }

  lemma AcksPushedStep(rule: PopRule, r: Reader, sh: Shared, l: ReaderLabel, n: Moved<Reader>)
    requires AcksPushed(r) && Numbered(r) && n == ReaderNext(rule, r, sh, l) && n.Moved?
    ensures AcksPushed(n.thread)
  {
    if l.TakePacket? {
      AcksTake(r, n.thread);
    } else if l.PushPacket? && !l.hasMemory {
      AcksDrop(r, n.thread);
    } else if l.TryAck? && l.sent {
      AcksLog(r, n.thread);
    } else {
      NextBuffers(rule, r, sh, l, n);
      AcksSame(r, n.thread);
    }
  }

  // ---------------------------------------------------------------- every reachable state

  ghost predicate ReaderInv(rule: PopRule, r: Reader)
  {
    Numbered(r) && AcksPushed(r) && ReaderFrees(r) && CountsInterrupts(r) && FindsFrames(rule, r)
  }

  lemma ReaderInvStep(rule: PopRule, r: Reader, sh: Shared, l: ReaderLabel, n: Moved<Reader>)
    requires ReaderInv(rule, r) && n == ReaderNext(rule, r, sh, l) && n.Moved?
    ensures ReaderInv(rule, n.thread)
  {
    NumberedStep(rule, r, sh, l);
    AcksPushedStep(rule, r, sh, l, n);
    ReaderFreesStep(rule, r, sh, l);
    CountsInterruptsStep(rule, r, sh, l, n);
    NextBuffers(rule, r, sh, l, n);
    FindsFramesStep(rule, r, l, n.thread);
  }

  ghost predicate MainInv(ops: L.Ops, m: Main)
  {
    MainFrees(m) && LoopRuns(ops, m)
  }

  lemma MainInvStep(ops: L.Ops, m: Main, sh: Shared, readerDone: bool, l: MainLabel, n: Moved<Main>)
    requires MainInv(ops, m) && n == MainNext(ops, m, sh, readerDone, l) && n.Moved?
    ensures MainInv(ops, n.thread)
  {
    MainFreesStep(ops, m, sh, readerDone, l);
    LoopRunsStep(ops, m, sh, readerDone, l);
  }

  ghost predicate Joint(s: State)
  {
    Wakes(s) && Retired(s) && Flags(s) && Quiet(s)
  }

  lemma JointReader(s: State, l: ReaderLabel, n: Moved<Reader>, t: State)
    requires Joint(s) && n == ReaderNext(s.rule, s.reader, s.shared, l) && n.Moved?
    requires t == s.(reader := n.thread, shared := n.shared)
    ensures Joint(t)
  {
    WakesReader(s, l, n);
    FlagsReader(s, l, n);
    RetiredStep(s, R(l));
    QuietStep(s, R(l));
  }

  lemma JointMain(s: State, l: MainLabel, n: Moved<Main>, t: State)
    requires Joint(s) && n == MainNext(s.ops, s.main, s.shared, s.reader.pc == ReaderDone, l) && n.Moved?
    requires t == s.(main := n.thread, shared := n.shared)
    ensures Joint(t)
  {
    WakesMain(s, l, n);
    FlagsMain(s, l, n);
    RetiredStep(s, M(l));
    QuietStep(s, M(l));
  }

  ghost predicate Inv(s: State)
  {
    ReaderInv(s.rule, s.reader) && MainInv(s.ops, s.main) && Joint(s) && InOrder(s.reader, s.shared, s.main)
  }

  lemma InvReader(s: State, l: ReaderLabel, n: Moved<Reader>)
    requires Inv(s) && n == ReaderNext(s.rule, s.reader, s.shared, l) && n.Moved?
    ensures Inv(s.(reader := n.thread, shared := n.shared))
  {
    JointReader(s, l, n, s.(reader := n.thread, shared := n.shared));
    ReaderInvStep(s.rule, s.reader, s.shared, l, n);
    InOrderReader(s.rule, s.reader, s.shared, s.main, l);
  }

  lemma OrderMain(s: State, l: MainLabel, n: Moved<Main>)
    requires InOrder(s.reader, s.shared, s.main) && Retired(s)
    requires n == MainNext(s.ops, s.main, s.shared, s.reader.pc == ReaderDone, l) && n.Moved?
    ensures InOrder(s.reader, n.shared, n.thread)
  {
    InOrderMain(s.ops, s.reader, s.shared, s.main, s.reader.pc == ReaderDone, l);
  }

  lemma InvMain(s: State, l: MainLabel, n: Moved<Main>)
    requires Inv(s) && n == MainNext(s.ops, s.main, s.shared, s.reader.pc == ReaderDone, l) && n.Moved?
    ensures Inv(s.(main := n.thread, shared := n.shared))
  {
    JointMain(s, l, n, s.(main := n.thread, shared := n.shared));
    MainInvStep(s.ops, s.main, s.shared, s.reader.pc == ReaderDone, l, n);
    OrderMain(s, l, n);
  }

  lemma InvStep(s: State, l: Label)
    requires Inv(s) && Next(s, l).Some?
    ensures var n := Next(s, l).value; Inv(n) && n.rule == s.rule && n.ops == s.ops
  {
    match l
    case R(rl) => InvReader(s, rl, ReaderNext(s.rule, s.reader, s.shared, rl));
    case M(ml) => InvMain(s, ml, MainNext(s.ops, s.main, s.shared, s.reader.pc == ReaderDone, ml));
  }

  lemma FindsNothing(rule: PopRule, r: Reader)
    requires r.buf == [] && r.chunks == [] && r.taken == []
    ensures FindsFrames(rule, r)
  {
    UnfinishedTail([]);
    EndsEmpty();
    assert PktFrames([]) + [] == [];
  }

  lemma CountsNothing(r: Reader)
    requires r.chunks == [] && r.pc == Polling && r.interrupts == 0 && r.halts == 0
    ensures CountsInterrupts(r)
  {
    assert Concat(r.chunks) == [];
  }

  lemma FreesNothing(r: Reader)
    requires r.taken == [] && r.dropped == {} && r.freed == multiset{} && r.pc == Polling
    ensures ReaderFrees(r) && Numbered(r) && (r.acked == [] ==> AcksPushed(r))
  {
  }

  lemma ReaderInit(rule: PopRule, r: Reader)
    requires r.buf == [] && r.chunks == [] && r.taken == [] && r.dropped == {} && r.freed == multiset{}
    requires r.pc == Polling && r.interrupts == 0 && r.halts == 0 && r.acked == []
    ensures ReaderInv(rule, r)
  {
    FindsNothing(rule, r);
    CountsNothing(r);
    FreesNothing(r);
  }

  lemma MainInit(ops: L.Ops, m: Main)
    requires m == Main(Popping, [], [], L.START, false, 0, multiset{}, [])
    ensures MainInv(ops, m)
  {
  }

  lemma JointInit(s: State)
    requires s.reader.pc == Polling && s.reader.interrupts == 0
    requires s.shared == Shared(Q.Empty(), NoWaiter, false, false)
    requires s.main.pc == Popping && s.main.emptyTurns == 0 && s.main.destroyed == [] && !s.main.cleanExit
    ensures Joint(s)
  {
  }

  lemma OrderInit(r: Reader, sh: Shared, m: Main)
    requires r.taken == [] && r.pc == Polling && sh.queue.items == [] && m.popped == [] && m.destroyed == []
    ensures InOrder(r, sh, m)
  {
  }

  lemma InvStart(s: State, r: Reader, m: Main)
    requires r == s.reader && m == s.main
    requires r.buf == [] && r.chunks == [] && r.taken == [] && r.dropped == {} && r.freed == multiset{}
    requires r.pc == Polling && r.interrupts == 0 && r.halts == 0 && r.acked == []
    requires s.shared == Shared(Q.Empty(), NoWaiter, false, false)
    requires m == Main(Popping, [], [], L.START, false, 0, multiset{}, [])
    ensures Inv(s)
  {
    ReaderInit(s.rule, r);
    MainInit(s.ops, m);
    JointInit(s);
    OrderInit(r, s.shared, m);
  }

  lemma InvInit(rule: PopRule, ops: L.Ops)
    ensures Inv(Init(rule, ops))
  {
    InvStart(Init(rule, ops), Init(rule, ops).reader, Init(rule, ops).main);
  }

  lemma {:induction false} InvRun(s: State, run: seq<Label>)
    requires Inv(s) && After(s, run).Some?
    ensures Inv(After(s, run).value) && After(s, run).value.rule == s.rule && After(s, run).value.ops == s.ops
    decreases |run|
  {
    if run != [] {
      InvStep(s, run[0]);
      InvRun(Next(s, run[0]).value, run[1..]);
    }
  }

  /** `s` is reached by some interleaving of the two threads. */
  ghost predicate Reachable(s: State)
  {
    exists run: seq<Label> :: After(Init(s.rule, s.ops), run) == Some(s)
  }

  lemma ReachableInv(s: State)
    requires Reachable(s)
    ensures Inv(s)
  {
    var run: seq<Label> :| After(Init(s.rule, s.ops), run) == Some(s);
    InvInit(s.rule, s.ops);
    InvRun(Init(s.rule, s.ops), run);
  }

  // ---------------------------------------------------------------- what holds in every interleaving

  /**
   * In every reachable state the packets popped by the main thread, those destroyed, those queued
   * and the one in the reader's hand are the packets taken from the buffer, in order, less the
   * dropped ones; with those still in the buffer these are the packets of the bytes received.
   */
  lemma PacketsInOrder(s: State)
    requires Reachable(s)
    ensures Kept(s.reader.taken, s.reader.dropped) ==
            s.main.popped + s.main.destroyed + s.shared.queue.items + Hand(s.reader.pc)
    ensures FramerRight(s.rule, s.reader.chunks) ==>
              PktFrames(s.reader.taken) + Frames(s.reader.buf) == Frames(Concat(s.reader.chunks))
  {
    ReachableInv(s);
  }

  /** The packets that are allocated and not freed. */
  function Live(s: State): seq<Pkt>
  {
    s.main.popped[|Processed(s.main)|..] + s.shared.queue.items + Hand(s.reader.pc)
  }

  lemma {:induction false} KeptIds(ps: seq<Pkt>, dropped: set<nat>, id: nat)
    requires forall i :: 0 <= i < |ps| ==> ps[i].id == i
    ensures IdBag(Kept(ps, dropped))[id] == if id < |ps| && id !in dropped then 1 else 0
  {
    if ps != [] {
      var front, p := ps[..|ps| - 1], ps[|ps| - 1];
      KeptIds(front, dropped, id);
      IdBagAppend(Kept(front, dropped), if p.id in dropped then [] else [p]);
      IdBagOne(p);
    }
  }

  lemma IdBagOne(p: Pkt)
    ensures IdBag([p]) == multiset{p.id} && IdBag([]) == multiset{}
  {
    assert [p][..0] == [];
  }

  lemma IdBagParts(a: seq<Pkt>, b: seq<Pkt>, c: seq<Pkt>, d: seq<Pkt>)
    ensures IdBag(a + b + c + d) == IdBag(a) + IdBag(b) + IdBag(c) + IdBag(d)
  {
    IdBagAppend(a + b + c, d);
    IdBagAppend(a + b, c);
    IdBagAppend(a, b);
  }

  lemma LiveCount(s: State, id: nat)
    ensures IdBag(s.main.popped)[id] + IdBag(s.shared.queue.items)[id] + IdBag(Hand(s.reader.pc))[id]
         == IdBag(Processed(s.main))[id] + IdBag(Live(s))[id]
  {
    var done := Processed(s.main);
    var handling := s.main.popped[|done|..];
    assert s.main.popped == done + handling;
    IdBagAppend(done, handling);
    IdBagAppend(handling + s.shared.queue.items, Hand(s.reader.pc));
    IdBagAppend(handling, s.shared.queue.items);
  }

  lemma KeptCount(r: Reader, sh: Shared, m: Main, id: nat)
    requires Numbered(r) && InOrder(r, sh, m)
    ensures IdBag(m.popped)[id] + IdBag(m.destroyed)[id] + IdBag(sh.queue.items)[id] + IdBag(Hand(r.pc))[id]
         == if id < |r.taken| && id !in r.dropped then 1 else 0
  {
    KeptIds(r.taken, r.dropped, id);
    IdBagParts(m.popped, m.destroyed, sh.queue.items, Hand(r.pc));
  }

  lemma FreedCount(r: Reader, m: Main, id: nat)
    requires MainFrees(m) && ReaderFrees(r) && Numbered(r)
    ensures m.freed[id] == IdBag(Processed(m))[id] + IdBag(m.destroyed)[id]
    ensures r.freed[id] == if id in r.dropped then 1 else 0
    ensures id in r.dropped ==> id < |r.taken|
  {
  }

  lemma AllCounts(s: State, id: nat)
    requires Reachable(s)
    ensures IdBag(s.main.popped)[id] + IdBag(s.main.destroyed)[id] + IdBag(s.shared.queue.items)[id]
          + IdBag(Hand(s.reader.pc))[id] == if id < |s.reader.taken| && id !in s.reader.dropped then 1 else 0
    ensures s.main.freed[id] == IdBag(Processed(s.main))[id] + IdBag(s.main.destroyed)[id]
    ensures s.reader.freed[id] == if id in s.reader.dropped then 1 else 0
    ensures id in s.reader.dropped ==> id < |s.reader.taken|
  {
    ReachableInv(s);
    KeptCount(s.reader, s.shared, s.main, id);
    FreedCount(s.reader, s.main, id);
  }

  /**
   * Every packet is freed exactly once, by the main thread, by the reader's failure path or at the
   * end: each packet taken so far is either freed or live, never both and never twice, and once the
   * stub is closed none is live.
   */
  lemma FreedOnce(s: State, id: nat)
    requires Reachable(s)
    ensures s.reader.freed[id] + s.main.freed[id] + IdBag(Live(s))[id] == if id < |s.reader.taken| then 1 else 0
    ensures s.main.pc == Closed ==> Live(s) == []
  {
    AllCounts(s, id);
    LiveCount(s, id);
    ClosedEmpty(s);
  }

  lemma ClosedEmpty(s: State)
    requires Reachable(s)
    ensures s.main.pc == Closed ==> Live(s) == []
  {
    ReachableInv(s);
  }

  /** No lost wakeup, and turns of the main loop without a packet are bounded by the 0x03 bytes received. */
  lemma WakesUp(s: State)
    requires Reachable(s)
    ensures s.main.pc == Waiting && s.shared.waiter != Woken ==> Q.MustWait(s.shared.queue)
    ensures s.main.emptyTurns + (if s.shared.queue.interrupted then 1 else 0) <= s.reader.interrupts
    ensures s.reader.interrupts + Unsignalled(s.reader.pc) == IntrBytes(Concat(s.reader.chunks))
  {
    ReachableInv(s);
  }

  /** In every interleaving the main loop is in the state its function gives for the packets it popped, in order. */
  lemma LoopSeesPackets(s: State)
    requires Reachable(s)
    ensures s.main.loop == L.Run(s.ops, L.START, s.main.inputs)
    ensures L.Popped(s.ops, L.START, s.main.inputs) == |s.main.inputs|
    ensures FramesIn(s.main.inputs) == PktFrames(Finished(s.main))
  {
    ReachableInv(s);
  }

  /**
   * In every interleaving, short of a failed assertion: the replies sent are the accepted packets
   * less the silent runs, and the failure count is the trailing run of bad packets.
   */
  lemma RepliesConserved(s: State)
    requires Reachable(s) && !s.main.pc.Dead?
    ensures |L.RepliesIn(s.main.loop.out)| ==
            L.Count(s.ops, s.main.inputs, L.Accepted) - L.Count(s.ops, s.main.inputs, L.SilentRun)
    ensures s.main.loop.failures == L.TrailingBad(s.main.inputs)
  {
    LoopSeesPackets(s);
    NotAborted(s);
    assert s.main.inputs[..|s.main.inputs|] == s.main.inputs;
    L.ReplyConservation(s.ops, s.main.inputs);
    L.FailuresCounted(s.ops, L.START, s.main.inputs);
  }

  lemma NotAborted(s: State)
    requires Reachable(s)
    ensures s.main.pc.Dead? <==> s.main.loop.status == L.Aborted
  {
    ReachableInv(s);
  }

  /**
   * The reader acknowledges packets in the order it takes them, each at most once, and only such as
   * have been pushed: none that was dropped, and none that is still in its hand.
   */
  lemma ReaderAcks(s: State)
    requires Reachable(s)
    ensures forall i, j :: 0 <= i < j < |s.reader.acked| ==> s.reader.acked[i] < s.reader.acked[j]
    ensures forall id :: id in s.reader.acked ==>
              && id < |s.reader.taken| && s.reader.taken[id].id == id
              && s.reader.taken[id] in Kept(s.reader.taken, s.reader.dropped)
              && s.reader.taken[id] !in Hand(s.reader.pc)
  {
    ReachableInv(s);
    forall id | id in s.reader.acked
      ensures s.reader.taken[id] in Kept(s.reader.taken, s.reader.dropped) && s.reader.taken[id] !in Hand(s.reader.pc)
    {
      KeptHas(s.reader.taken, s.reader.dropped, id);
    }
  }

  lemma {:induction false} KeptHas(ps: seq<Pkt>, dropped: set<nat>, k: nat)
    requires k < |ps| && ps[k].id !in dropped
    ensures ps[k] in Kept(ps, dropped)
  {
    if k < |ps| - 1 { KeptHas(ps[..|ps| - 1], dropped, k); }
  }

  lemma {:induction false} KeptOf(ps: seq<Pkt>, dropped: set<nat>, p: Pkt)
    requires p in Kept(ps, dropped)
    ensures p in ps
  {
    if ps != [] && p != ps[|ps| - 1] { KeptOf(ps[..|ps| - 1], dropped, p); }
  }

  lemma {:induction false} KeptLength(ps: seq<Pkt>, dropped: set<nat>)
    requires (forall i :: 0 <= i < |ps| ==> ps[i].id == i) && forall d :: d in dropped ==> d < |ps|
    ensures |Kept(ps, dropped)| == |ps| - |dropped|
  {
    if ps != [] {
      var front, id := ps[..|ps| - 1], |ps| - 1;
      if id in dropped {
        KeptLength(front, dropped - {id});
        KeptIgnores(front, dropped - {id}, id);
        assert dropped - {id} + {id} == dropped;
      } else {
        KeptLength(front, dropped);
      }
    } else {
      assert dropped == {};
    }
  }

  lemma {:induction false} KeptAll(ps: seq<Pkt>)
    ensures Kept(ps, {}) == ps
  {
    if ps != [] {
      var front, p := ps[..|ps| - 1], ps[|ps| - 1];
      KeptAll(front);
      assert front + [p] == ps;
    }
  }

  lemma NothingInProgress(s: State)
    requires Reachable(s) && s.main.cleanExit
    ensures Finished(s.main) == s.main.popped
  {
    ReachableInv(s);
  }

  lemma NotDeadAtExit(s: State)
    requires Reachable(s) && s.main.cleanExit
    ensures !s.main.pc.Dead?
  {
    ReachableInv(s);
  }

  /** No packet was dropped, and none is left queued, destroyed, in the reader's hand or in its buffer. */
  predicate NothingLeft(s: State)
  {
    && s.reader.dropped == {} && s.main.destroyed == [] && s.shared.queue.items == []
    && Hand(s.reader.pc) == [] && Frames(s.reader.buf) == []
  }

  /** How many packets were received: those popped, and all the others. */
  lemma PacketCount(s: State)
    requires Reachable(s) && FramerRight(s.rule, s.reader.chunks)
    ensures |Frames(Concat(s.reader.chunks))| ==
            |s.main.popped| + |s.reader.dropped| + |s.main.destroyed| + |s.shared.queue.items| + |Hand(s.reader.pc)|
            + |Frames(s.reader.buf)|
  {
    PacketsInOrder(s);
    DroppedTaken(s);
    KeptLength(s.reader.taken, s.reader.dropped);
  }

  lemma DroppedTaken(s: State)
    requires Reachable(s)
    ensures forall i :: 0 <= i < |s.reader.taken| ==> s.reader.taken[i].id == i
    ensures forall d :: d in s.reader.dropped ==> d < |s.reader.taken|
  {
    ReachableInv(s);
  }

  lemma PoppedAll(s: State)
    requires Reachable(s) && FramerRight(s.rule, s.reader.chunks) && NothingLeft(s)
    ensures PktFrames(s.main.popped) == Frames(Concat(s.reader.chunks))
  {
    PacketsInOrder(s);
    KeptAll(s.reader.taken);
    assert s.reader.taken == s.main.popped;
    assert PktFrames(s.reader.taken) + [] == PktFrames(s.reader.taken);
  }

  lemma ExitFrames(s: State)
    requires Reachable(s) && s.main.cleanExit
    ensures FramesIn(s.main.inputs) == PktFrames(s.main.popped)
  {
    NothingInProgress(s);
    LoopSeesPackets(s);
  }

  /**
   * A clean exit has processed exactly the packets of the bytes received, in order, if and only if no
   * packet was dropped and none is left anywhere.
   */
  lemma EverythingProcessed(s: State)
    requires Reachable(s) && s.main.cleanExit && FramerRight(s.rule, s.reader.chunks)
    ensures FramesIn(s.main.inputs) == Frames(Concat(s.reader.chunks)) <==> NothingLeft(s)
  {
    ExitFrames(s);
    PacketCount(s);
    if NothingLeft(s) { PoppedAll(s); }
  }

  /** That is so after any run without a 0x03 and without a failed allocation. */
  lemma QuietLeavesNothing(s: State)
    requires Reachable(s) && s.main.cleanExit && FramerRight(s.rule, s.reader.chunks)
    requires s.reader.interrupts == 0 && s.reader.dropped == {}
    ensures NothingLeft(s)
  {
    QuietIsDry(s);
    TailUnfinished(Concat(s.reader.chunks));
    SettledBuffer(s);
  }

  lemma QuietIsDry(s: State)
    requires Reachable(s) && s.main.cleanExit && s.reader.interrupts == 0
    ensures Dry(s)
  {
    ReachableInv(s);
  }

  lemma SettledBuffer(s: State)
    requires Reachable(s) && Settled(s.reader.pc) && FramerRight(s.rule, s.reader.chunks)
    ensures s.reader.buf == Tail(Concat(s.reader.chunks))
  {
    ReachableInv(s);
  }

  // ---------------------------------------------------------------- when only what lies between packets interrupts

  function IntrIn(parts: seq<seq<byte>>): nat
  {
    if parts == [] then 0 else IntrBytes(parts[0]) + IntrIn(parts[1..])
  }

  lemma {:induction false} InterleaveIntr(gaps: seq<seq<byte>>, frames: seq<seq<byte>>, tail: seq<byte>)
    requires |gaps| == |frames| + 1
    ensures IntrBytes(Interleave(gaps, frames, tail)) == IntrIn(gaps) + IntrIn(frames) + IntrBytes(tail)
    decreases |frames|
  {
    if frames == [] {
      IntrBytesAppend(gaps[0], tail);
      assert gaps[1..] == [];
    } else {
      var rest := Interleave(gaps[1..], frames[1..], tail);
      InterleaveIntr(gaps[1..], frames[1..], tail);
      IntrBytesAppend(gaps[0], frames[0] + rest);
      IntrBytesAppend(frames[0], rest);
    }
  }

  /**
   * Only what lies between packets has interrupted, and all of that, if and only if no packet and no
   * unfinished one holds a 0x03. The partition of the bytes received into gaps, packets and tail is the
   * only one there is.
   */
  lemma InterruptsExact(s: State, gaps: seq<seq<byte>>, frames: seq<seq<byte>>, tail: seq<byte>)
    requires Reachable(s) && Unsignalled(s.reader.pc) == 0
    requires Partition(gaps, frames, tail) && Interleave(gaps, frames, tail) == Concat(s.reader.chunks)
    ensures s.reader.interrupts == IntrIn(gaps) <==> IntrIn(frames) + IntrBytes(tail) == 0
  {
    WakesUp(s);
    InterleaveIntr(gaps, frames, tail);
  }

  // ---------------------------------------------------------------- when a clean exit is complete

  lemma {:induction false} AfterAppend(s: State, a: seq<Label>, b: seq<Label>)
    requires After(s, a).Some?
    ensures After(s, a + b) == After(After(s, a).value, b)
    decreases |a|
  {
    if a == [] {
      assert a + b == b;
    } else {
      assert (a + b)[1..] == a[1..] + b;
      AfterAppend(Next(s, a[0]).value, a[1..], b);
    }
  }

  /** How far the reader is from polling again. */
  function Phase(pc: ReaderPc): nat
  {
    match pc
    case Scanning(_) => 2
    case Halting(_) => 2
    case Signalling(_) => 2
    case Draining => 1
    case Holding(_) => 1
    case Acking(_) => 1
    case _ => 0
  }

  function Work(r: Reader): nat
  {
    match r.pc
    case Scanning(rest) => 3 * |rest|
    case Halting(rest) => 3 * |rest| + 2
    case Signalling(rest) => 3 * |rest| + 1
    case Draining => 3 * |r.buf|
    case Holding(_) => 3 * |r.buf| + 2
    case Acking(_) => 3 * |r.buf| + 1
    case _ => 0
  }

  /** A step the busy reader can take on its own. */
  function Advance(r: Reader): ReaderLabel
  {
    match r.pc
    case Scanning(_) => ScanByte
    case Halting(_) => Halt
    case Signalling(_) => SignalInterrupt
    case Draining => if Complete(Corrected, SkipToDollar(r.buf)) then TakePacket(None) else NoPacketLeft
    case Holding(_) => PushPacket(true)
    case Acking(_) => TryAck(true)
    case Leaving => SignalShutdown
    case _ => ReadEnds
  }

  /** A packet is queued, in hand or in a buffer that will be drained. */
  predicate Brings(r: Reader, sh: Shared)
  {
    sh.queue.items != [] || r.pc.Holding? || (Phase(r.pc) > 0 && Frames(r.buf) != [])
  }

  /** Draining takes a packet while the grammar finds one. */
  lemma DrainAdvances(buf: seq<byte>, t: seq<byte>)
    requires t == SkipToDollar(buf)
    ensures Complete(Corrected, t) ==>
              var d := TakeNext(Corrected, t, None); d.Took? && |d.rest| < |buf| && |d.frame| >= 4
    ensures !Complete(Corrected, t) ==> Frames(buf) == []
  {
  }

  /** What a step of `Advance` comes to. */
  predicate Advanced(r: Reader, sh: Shared, n: Moved<Reader>)
  {
    && n.Moved? && n.shared.queue.shutdown == sh.queue.shutdown && n.shared.stop == sh.stop
    && n.thread.chunks == r.chunks
    && (Phase(n.thread.pc) < Phase(r.pc) || (Phase(n.thread.pc) == Phase(r.pc) && Work(n.thread) < Work(r)))
    && (n.thread.pc == Polling || Phase(n.thread.pc) > 0)
    && (Brings(r, sh) ==> Brings(n.thread, n.shared))
  }

  lemma DrainMoves(r: Reader, sh: Shared)
    requires r.pc == Draining
    ensures Advanced(r, sh, ReaderNext(Corrected, r, sh, Advance(r)))
  {
    DrainAdvances(r.buf, SkipToDollar(r.buf));
  }

  lemma ScanMoves(r: Reader, sh: Shared)
    requires Phase(r.pc) == 2
    ensures Advanced(r, sh, ReaderNext(Corrected, r, sh, Advance(r)))
  {
  }

  lemma PushMoves(r: Reader, sh: Shared)
    requires r.pc.Holding? || r.pc.Acking?
    ensures Advanced(r, sh, ReaderNext(Corrected, r, sh, Advance(r)))
  {
  }

  lemma AdvanceMoves(r: Reader, sh: Shared)
    requires Phase(r.pc) > 0
    ensures Advanced(r, sh, ReaderNext(Corrected, r, sh, Advance(r)))
  {
    if r.pc == Draining {
      DrainMoves(r, sh);
    } else if Phase(r.pc) == 2 {
      ScanMoves(r, sh);
    } else {
      PushMoves(r, sh);
    }
  }

  /** The peer has no part in the run: it neither sends nor hangs up. */
  predicate WithoutPeer(run: seq<Label>)
  {
    forall l :: l in run && l.R? ==> !l.r.Read? && !l.r.ReadEnds?
  }

  /** The reader can get back to polling with the main thread standing still. */
  lemma {:induction false} ReaderPolls(s: State) returns (run: seq<Label>, t: State)
    requires s.rule == Corrected && (s.reader.pc == Polling || Phase(s.reader.pc) > 0)
    ensures After(s, run) == Some(t) && t.reader.pc == Polling && t.main == s.main && WithoutPeer(run)
    ensures t.rule == s.rule && t.ops == s.ops && t.shared.queue.shutdown == s.shared.queue.shutdown
    ensures t.shared.stop == s.shared.stop && t.reader.chunks == s.reader.chunks
    ensures Brings(s.reader, s.shared) ==> t.shared.queue.items != []
    decreases Phase(s.reader.pc), Work(s.reader)
  {
    if s.reader.pc == Polling {
      return [], s;
    }
    var n := ReaderNext(Corrected, s.reader, s.shared, Advance(s.reader));
    AdvanceMoves(s.reader, s.shared);
    var u := s.(reader := n.thread, shared := n.shared);
    run, t := ReaderPolls(u);
    AfterCons(s, R(Advance(s.reader)), u, run);
    run := [R(Advance(s.reader))] + run;
  }

  const MINIMAL: seq<byte> := [DOLLAR, HASH, 0x30, 0x30]

  /** Whatever is buffered, one more whole packet completes at least one. */
  lemma MinimalCompletes(buf: seq<byte>)
    ensures Frames(buf + MINIMAL) != []
  {
    IndexOfIs(MINIMAL, DOLLAR, 0);
    SkipAppend(buf, MINIMAL);
    if DOLLAR in buf {
      MinimalEnds(SkipToDollar(buf));
    } else {
      MinimalEnds([]);
      assert [] + MINIMAL == MINIMAL && SkipToDollar(MINIMAL) == MINIMAL;
    }
  }

  lemma MinimalEnds(t: seq<byte>)
    requires t != [] ==> t[0] == DOLLAR
    ensures HasFrame(t + MINIMAL)
  {
    IndexOfAppend(t, MINIMAL, HASH);
    IndexOfIs(MINIMAL, HASH, 1);
  }

  lemma AfterCons(s: State, l: Label, n: State, run: seq<Label>)
    requires Next(s, l) == Some(n)
    ensures After(s, [l] + run) == After(n, run)
  {
    assert ([l] + run)[1..] == run;
  }

  lemma ReadMinimal(s: State) returns (n: State)
    requires s.reader.pc == Polling
    ensures Next(s, R(Read(MINIMAL))) == Some(n) && Phase(n.reader.pc) == 2 && Brings(n.reader, n.shared)
    ensures n.main == s.main && n.rule == s.rule && n.ops == s.ops && n.shared == s.shared
  {
    MinimalCompletes(s.reader.buf);
    n := s.(reader := Received(s.reader, MINIMAL));
  }

  /** The reader reads one more packet and queues it. */
  lemma ReaderBrings(s: State) returns (run: seq<Label>, t: State)
    requires s.rule == Corrected && s.reader.pc == Polling
    ensures After(s, run) == Some(t) && t.reader.pc == Polling && t.main == s.main
    ensures t.rule == s.rule && t.ops == s.ops && t.shared.queue.items != []
    ensures t.shared.queue.shutdown == s.shared.queue.shutdown
  {
    var n := ReadMinimal(s);
    run, t := ReaderPolls(n);
    AfterCons(s, R(Read(MINIMAL)), n, run);
    run := [R(Read(MINIMAL))] + run;
  }

  lemma LeaveAndExit(s: State) returns (run: seq<Label>, t: State)
    requires s.main.pc == CheckingShutdown && s.shared.queue.items != []
    requires s.reader.pc == Polling || s.reader.pc == Leaving || (s.reader.pc == ReaderDone && s.shared.queue.shutdown)
    ensures After(s, run) == Some(t) && t.main.cleanExit && t.shared.queue.items != []
  {
    var a, s1 := OneStep(s, s.reader.pc == Polling, R(ReadEnds));
    var b, s2 := OneStep(s1, s1.reader.pc == Leaving, R(SignalShutdown));
    var c, s3 := OneStep(s2, true, M(CheckShutdown));
    AfterAppend(s, a, b);
    AfterAppend(s, a + b, c);
    run, t := a + b + c, s3;
  }

  lemma OneStep(s: State, take: bool, l: Label) returns (run: seq<Label>, t: State)
    requires take ==> Next(s, l).Some?
    ensures After(s, run) == Some(t) && t == if take then Next(s, l).value else s
    ensures WithoutPeer([l]) ==> WithoutPeer(run)
  {
    run, t := [], s;
    if take {
      run, t := [l], Next(s, l).value;
      assert run[1..] == [];
    }
  }

  /**
   * From a NULL pop the main loop can exit cleanly with a packet in the queue, unless the reader is done
   * and nothing is queued.
   */
  lemma PacketLeftBehind(s: State) returns (run: seq<Label>, t: State)
    requires s.rule == Corrected && s.main.pc == CheckingShutdown && Flags(s) && !Dry(s) && s.main.destroyed == []
    ensures After(s, run) == Some(t) && t.main.cleanExit && t.shared.queue.items != []
  {
    var a, s1 := [], s;
    if s.reader.pc != Leaving && s.reader.pc != ReaderDone {
      a, s1 := ReaderPolls(s);
      if s1.shared.queue.items == [] {
        var more, s2 := ReaderBrings(s1);
        AfterAppend(s, a, more);
        a, s1 := a + more, s2;
      }
    }
    var b, s3 := LeaveAndExit(s1);
    AfterAppend(s, a, b);
    run, t := a + b, s3;
  }

  lemma {:induction false} DryRun(s: State, run: seq<Label>)
    requires Dry(s) && After(s, run).Some?
    ensures Dry(After(s, run).value)
    decreases |run|
  {
    if run != [] {
      DryStep(s, run[0]);
      DryRun(Next(s, run[0]).value, run[1..]);
    }
  }

  const BYTE3: seq<byte> := [INTR_CHAR]

  /** An input: a 0x03 has made the first pop return NULL, and the reader is still scanning. */
  lemma InterruptedPop(ops: L.Ops) returns (s: State)
    ensures Reachable(s) && s.rule == Corrected && s.ops == ops
    ensures s.main.pc == CheckingShutdown && !Dry(s) && s.reader.pc == Scanning([])
  {
    var s0 := Init(Corrected, ops);
    var a, s1 := OneStep(s0, true, R(Read(BYTE3)));
    var b, s2 := OneStep(s1, true, R(ScanByte));
    var c, s3 := OneStep(s2, true, R(SignalInterrupt));
    var d, s4 := OneStep(s3, true, M(Pop));
    assert BYTE3[1..] == [];
    AfterAppend(s0, a, b);
    AfterAppend(s0, a + b, c);
    AfterAppend(s0, a + b + c, d);
    assert After(Init(s4.rule, s4.ops), a + b + c + d) == Some(s4);
    s := s4;
  }

  /** So a clean exit can leave a packet in the queue: there are such reachable states, for any target. */
  lemma CleanExitFails(ops: L.Ops) returns (t: State)
    ensures Reachable(t) && t.ops == ops && t.main.cleanExit && t.shared.queue.items != []
  {
    var s := InterruptedPop(ops);
    ExitReady(s);
    var more;
    more, t := PacketLeftBehind(s);
    StaysReachable(s, more, t);
  }

  lemma ExitReady(s: State)
    requires Reachable(s) && s.main.pc == CheckingShutdown
    ensures Flags(s) && s.main.destroyed == []
  {
    ReachableInv(s);
  }

  /**
   * After a pop has returned NULL, no clean exit leaves a packet in the queue exactly when the
   * reader has stopped reading and the queue is empty; an interrupt alone does not ensure that.
   */
  lemma CleanExitComplete(s: State)
    requires Reachable(s) && s.rule == Corrected && s.main.pc == CheckingShutdown
    ensures (forall run: seq<Label> :: After(s, run).Some? && After(s, run).value.main.cleanExit ==>
               After(s, run).value.shared.queue.items == []) <==> Dry(s)
  {
    ReachableInv(s);
    if Dry(s) {
      forall run: seq<Label> | After(s, run).Some? ensures After(s, run).value.shared.queue.items == [] {
        DryRun(s, run);
      }
    } else {
      var run, t := PacketLeftBehind(s);
      assert After(s, run).Some? && After(s, run).value == t;
    }
  }

  // ---------------------------------------------------------------- what the reader acknowledges

  /** The reader reads `stream` at once and gets back to polling; every 0x03 in it has interrupted. */
  lemma ReaderReads(ops: L.Ops, stream: seq<byte>) returns (s: State)
    requires stream != []
    ensures Reachable(s) && s.rule == Corrected && s.ops == ops && s.reader.pc == Polling
    ensures Concat(s.reader.chunks) == stream && s.reader.interrupts == IntrBytes(stream)
  {
    var s0 := Init(Corrected, ops);
    var a, s1 := OneStep(s0, true, R(Read(stream)));
    var b, s2 := ReaderPolls(s1);
    AfterAppend(s0, a, b);
    assert After(Init(s2.rule, s2.ops), a + b) == Some(s2);
    assert [stream][1..] == [] && stream + [] == stream;
    WakesUp(s2);
    s := s2;
  }

  /** On the way to packet number `k`, which is still to come or in hand. */
  predicate Heading(r: Reader, k: nat)
  {
    HeadingWith(r, k, |Frames(r.buf)|)
  }

  /** With `more` packets in the buffer. */
  predicate HeadingWith(r: Reader, k: nat, more: nat)
  {
    && k < |r.taken| + more
    && (if r.pc.Holding? then r.pc.p.id == |r.taken| - 1 <= k
        else |r.taken| <= k && (Phase(r.pc) == 2 || r.pc == Draining))
  }

  /** Steps that drop every packet but number `k`. */
  function AdvanceTo(r: Reader, k: nat): ReaderLabel
  {
    if r.pc.Holding? then PushPacket(r.pc.p.id == k) else Advance(r)
  }

  /** Number `k` has just been pushed, the only one. */
  predicate Arrived(r: Reader, sh: Shared, k: nat)
  {
    r.pc.Acking? && r.pc.p.id == k && sh.queue.items == [r.pc.p]
  }

  predicate Nearer(r: Reader, n: Moved<Reader>, k: nat)
  {
    && n.Moved? && n.thread.chunks == r.chunks && n.thread.acked == r.acked
    && (Arrived(n.thread, n.shared, k)
        || (Heading(n.thread, k) && n.shared.queue.items == []
            && (Phase(n.thread.pc) < Phase(r.pc)
                || (Phase(n.thread.pc) == Phase(r.pc) && Work(n.thread) < Work(r)))))
  }

  lemma SameHeading(r: Reader, n: Reader, k: nat, more: nat)
    requires HeadingWith(r, k, more) && Phase(r.pc) == 2 && n.taken == r.taken && (n.pc == Draining || Phase(n.pc) == 2)
    ensures HeadingWith(n, k, more)
  {
  }

  /** A step of the scan leaves buffer, packets and acknowledgments alone. */
  predicate Scans(r: Reader, n: Reader)
  {
    && n.buf == r.buf && n.taken == r.taken && n.chunks == r.chunks && n.acked == r.acked
    && (n.pc == Draining || (Phase(n.pc) == 2 && Work(n) < Work(r)))
  }

  lemma ScanGoes(r: Reader, sh: Shared)
    requires Phase(r.pc) == 2
    ensures var n := ReaderNext(Corrected, r, sh, Advance(r));
      n.Moved? && n.shared.queue.items == sh.queue.items && Scans(r, n.thread)
  {
  }

  lemma ScanNears(r: Reader, sh: Shared, k: nat)
    requires Heading(r, k) && Phase(r.pc) == 2 && sh.queue.items == []
    ensures Nearer(r, ReaderNext(Corrected, r, sh, AdvanceTo(r, k)), k)
  {
    ScanGoes(r, sh);
    SameHeading(r, ReaderNext(Corrected, r, sh, Advance(r)).thread, k, |Frames(r.buf)|);
  }

  lemma PushNears(r: Reader, sh: Shared, k: nat)
    requires Heading(r, k) && r.pc.Holding? && sh.queue.items == []
    ensures Nearer(r, ReaderNext(Corrected, r, sh, AdvanceTo(r, k)), k)
  {
  }

  /** While a packet is to come, draining takes it: `rest` has the others. */
  lemma DrainTakes(buf: seq<byte>, t: seq<byte>, d: Taken)
    requires t == SkipToDollar(buf) && Frames(buf) != [] && d == TakeNext(Corrected, t, None)
    ensures Complete(Corrected, t) && d.Took? && |d.frame| >= 4 && |d.rest| < |buf|
    ensures |Frames(buf)| == 1 + |Frames(d.rest)|
  {
    DrainAdvances(buf, t);
    TakesWhole(Corrected, buf, t, None);
    GrammarStep(buf, t, FrameLength(t));
  }

  lemma DrainGoes(r: Reader, sh: Shared, k: nat, d: Taken)
    requires r.pc == Draining && d == TakeNext(Corrected, SkipToDollar(r.buf), None) && d.Took?
    requires Complete(Corrected, SkipToDollar(r.buf))
    ensures ReaderNext(Corrected, r, sh, AdvanceTo(r, k)) == Moved(Taking(r, d.frame, d.rest), sh)
  {
  }

  lemma DrainNears(r: Reader, sh: Shared, k: nat)
    requires Heading(r, k) && r.pc == Draining && sh.queue.items == []
    ensures Nearer(r, ReaderNext(Corrected, r, sh, AdvanceTo(r, k)), k)
  {
    var d := TakeNext(Corrected, SkipToDollar(r.buf), None);
    DrainTakes(r.buf, SkipToDollar(r.buf), d);
    DrainGoes(r, sh, k, d);
    TakenNears(r, sh, k, d, Taking(r, d.frame, d.rest));
  }

  lemma TakenNears(r: Reader, sh: Shared, k: nat, d: Taken, n: Reader)
    requires Heading(r, k) && r.pc == Draining && sh.queue.items == []
    requires d.Took? && |d.frame| >= 4 && |d.rest| < |r.buf| && |Frames(r.buf)| == 1 + |Frames(d.rest)|
    requires n == Taking(r, d.frame, d.rest)
    ensures Nearer(r, Moved(n, sh), k)
  {
    TakingNears(r, n, k, |Frames(d.rest)|);
  }

  lemma TakingNears(r: Reader, n: Reader, k: nat, more: nat)
    requires HeadingWith(r, k, more + 1) && r.pc == Draining && n.pc.Holding? && n.pc.p.id == |r.taken|
    requires |n.taken| == |r.taken| + 1 && |n.buf| < |r.buf|
    ensures HeadingWith(n, k, more) && Phase(n.pc) == Phase(r.pc) && Work(n) < Work(r)
  {
  }

  /**
   * The reader gets to acknowledging packet number `k`, with all before it dropped and the main thread
   * standing still.
   */
  lemma {:induction false} ReaderArrives(s: State, k: nat) returns (run: seq<Label>, t: State)
    requires s.rule == Corrected && Heading(s.reader, k) && s.shared.queue.items == []
    ensures After(s, run) == Some(t) && t.main == s.main && t.rule == s.rule && t.ops == s.ops
    ensures Arrived(t.reader, t.shared, k) && t.reader.chunks == s.reader.chunks && t.reader.acked == s.reader.acked
    decreases Phase(s.reader.pc), Work(s.reader)
  {
    var r, sh := s.reader, s.shared;
    if Phase(r.pc) == 2 {
      ScanNears(r, sh, k);
    } else if r.pc == Draining {
      DrainNears(r, sh, k);
    } else {
      PushNears(r, sh, k);
    }
    var n := ReaderNext(Corrected, r, sh, AdvanceTo(r, k));
    var u := s.(reader := n.thread, shared := n.shared);
    if Arrived(n.thread, n.shared, k) {
      run, t := [], u;
    } else {
      run, t := ReaderArrives(u, k);
    }
    AfterCons(s, R(AdvanceTo(r, k)), u, run);
    run := [R(AdvanceTo(r, k))] + run;
  }

  /** Reached on some part of a stream, by any interleaving and any split. */
  ghost predicate Within(s: State, ops: L.Ops, stream: seq<byte>)
  {
    Reachable(s) && s.rule == Corrected && s.ops == ops && Concat(s.reader.chunks) <= stream
  }

  lemma FramesPrefix(part: seq<byte>, stream: seq<byte>)
    requires part <= stream
    ensures Frames(part) <= Frames(stream)
  {
    assert stream == part + stream[|part|..];
    FramesAppend(part, stream[|part|..]);
  }

  lemma FrameTaken(taken: seq<Pkt>, rest: seq<seq<byte>>, all: seq<seq<byte>>, more: seq<seq<byte>>, p: Pkt)
    requires PktFrames(taken) + rest == all && all <= more && p in taken
    ensures p.frame in more
  {
    var k :| 0 <= k < |taken| && taken[k] == p;
    assert PktFrames(taken)[k] == p.frame == all[k] == more[k];
  }

  /** What is taken on a part of a stream are packets of the stream. */
  lemma TakenWithin(s: State, ops: L.Ops, stream: seq<byte>, p: Pkt)
    requires Within(s, ops, stream) && p in s.reader.taken
    ensures p.frame in Frames(stream)
  {
    PacketsInOrder(s);
    FramesPrefix(Concat(s.reader.chunks), stream);
    FrameTaken(s.reader.taken, Frames(s.reader.buf), Frames(Concat(s.reader.chunks)), Frames(stream), p);
  }

  lemma HeldFrame(s: State)
    requires Reachable(s) && s.rule == Corrected && s.reader.pc.Acking?
    ensures s.reader.pc.p.id < |Frames(Concat(s.reader.chunks))|
    ensures Frames(Concat(s.reader.chunks))[s.reader.pc.p.id] == s.reader.pc.p.frame
    ensures s.reader.pc.p.id < |s.reader.taken| && s.reader.taken[s.reader.pc.p.id] == s.reader.pc.p
  {
    PacketsInOrder(s);
    Held(s);
    var k := s.reader.pc.p.id;
    assert PktFrames(s.reader.taken)[k] == s.reader.pc.p.frame;
  }

  lemma Held(s: State)
    requires Reachable(s) && s.reader.pc.Acking?
    ensures s.reader.taken != [] && s.reader.pc.p.id == |s.reader.taken| - 1
    ensures s.reader.taken[|s.reader.taken| - 1] == s.reader.pc.p
  {
    ReachableInv(s);
  }

  lemma HeadingStarts(r: Reader, stream: seq<byte>, k: nat)
    requires k < |Frames(stream)| && r.taken == [] && r.buf == stream && r.pc == Scanning(stream)
    ensures Heading(r, k)
  {
  }

  lemma StreamRead(ops: L.Ops, stream: seq<byte>) returns (run: seq<Label>, s: State)
    requires stream != []
    ensures After(Init(Corrected, ops), run) == Some(s)
    ensures s == Init(Corrected, ops).(reader := Received(Init(Corrected, ops).reader, stream))
  {
    var s0 := Init(Corrected, ops);
    s := s0.(reader := Received(s0.reader, stream));
    AfterCons(s0, R(Read(stream)), s, []);
    run := [R(Read(stream))] + [];
  }

  lemma EmptyThen(stream: seq<byte>)
    ensures [] + stream == stream && Concat([] + [stream]) == stream
  {
    assert [] + [stream] == [stream] && [stream][1..] == [] && stream + [] == stream;
  }

  lemma ReadsAll(ops: L.Ops, stream: seq<byte>, run: seq<Label>, t: State)
    requires After(Init(Corrected, ops), run) == Some(t) && t.rule == Corrected && t.ops == ops
    requires Concat(t.reader.chunks) == stream
    ensures Within(t, ops, stream)
  {
    assert After(Init(t.rule, t.ops), run) == Some(t);
  }

  /** Every packet of a stream can be the only one pushed, and about to be acknowledged. */
  lemma ReaderHolds(ops: L.Ops, stream: seq<byte>, k: nat) returns (s: State)
    requires k < |Frames(stream)|
    ensures Within(s, ops, stream) && s.main == Init(Corrected, ops).main && s.reader.acked == []
    ensures Arrived(s.reader, s.shared, k) && s.reader.pc.p.frame == Frames(stream)[k]
  {
    NoFramesInNothing(stream);
    var a, s1 := StreamRead(ops, stream);
    EmptyThen(stream);
    HeadingStarts(s1.reader, stream, k);
    var b, s2 := ReaderArrives(s1, k);
    AfterAppend(Init(Corrected, ops), a, b);
    ReadsAll(ops, stream, a + b, s2);
    HeldFrame(s2);
    s := s2;
  }

  lemma NoFramesInNothing(stream: seq<byte>)
    requires Frames(stream) != []
    ensures stream != []
  {
  }

  /** Every packet acknowledged so far has a right checksum. */
  predicate AcksRight(r: Reader)
  {
    forall i :: 0 <= i < |r.acked| && r.acked[i] < |r.taken| ==> L.Connection.Verifies(r.taken[r.acked[i]].frame)
  }

  /**
   * The reader never acknowledges a packet with a wrong checksum, in any interleaving, split and part
   * of a stream, if and only if the stream has none.
   */
  lemma AcksExact(ops: L.Ops, stream: seq<byte>)
    ensures (forall s :: Within(s, ops, stream) ==> AcksRight(s.reader))
      <==> forall k :: 0 <= k < |Frames(stream)| ==>
             |Frames(stream)[k]| >= 4 && L.Connection.Verifies(Frames(stream)[k])
  {
    if k :| 0 <= k < |Frames(stream)| && !(|Frames(stream)[k]| >= 4 && L.Connection.Verifies(Frames(stream)[k])) {
      var s := BadAcked(ops, stream, k);
      assert Within(s, ops, stream) && !AcksRight(s.reader);
    } else {
      forall s | Within(s, ops, stream) ensures AcksRight(s.reader) {
        GoodAcked(s, ops, stream);
      }
    }
  }

  lemma GoodAcked(s: State, ops: L.Ops, stream: seq<byte>)
    requires Within(s, ops, stream)
    requires forall k :: 0 <= k < |Frames(stream)| ==>
               |Frames(stream)[k]| >= 4 && L.Connection.Verifies(Frames(stream)[k])
    ensures AcksRight(s.reader)
  {
    forall i | 0 <= i < |s.reader.acked| && s.reader.acked[i] < |s.reader.taken|
      ensures L.Connection.Verifies(s.reader.taken[s.reader.acked[i]].frame)
    {
      TakenWithin(s, ops, stream, s.reader.taken[s.reader.acked[i]]);
    }
  }

  lemma AckSent(s: State) returns (more: seq<Label>, t: State)
    requires s.reader.pc.Acking?
    ensures After(s, more) == Some(t) && t.reader.acked == s.reader.acked + [s.reader.pc.p.id]
    ensures t.reader.taken == s.reader.taken && t.reader.chunks == s.reader.chunks
  {
    more, t := OneStep(s, true, R(TryAck(true)));
  }

  lemma WrongAcked(r: Reader, k: nat)
    requires r.acked == [k] && k < |r.taken| && !L.Connection.Verifies(r.taken[k].frame)
    ensures !AcksRight(r)
  {
    assert r.acked[0] == k;
  }

  /** A packet with a wrong checksum is acknowledged. */
  lemma BadAcked(ops: L.Ops, stream: seq<byte>, k: nat) returns (t: State)
    requires k < |Frames(stream)|
    requires |Frames(stream)[k]| >= 4 ==> !L.Connection.Verifies(Frames(stream)[k])
    ensures Within(t, ops, stream) && t.reader.acked == [k] && k < |t.reader.taken|
    ensures t.reader.taken[k].frame == Frames(stream)[k] && !AcksRight(t.reader)
  {
    var s := ReaderHolds(ops, stream, k);
    HeldFrame(s);
    var more;
    more, t := AckSent(s);
    StaysReachable(s, more, t);
    WrongAcked(t.reader, k);
  }

  lemma {:induction false} ConfigKept(s: State, run: seq<Label>)
    requires After(s, run).Some?
    ensures After(s, run).value.rule == s.rule && After(s, run).value.ops == s.ops
    decreases |run|
  {
    if run != [] { ConfigKept(Next(s, run[0]).value, run[1..]); }
  }

  lemma StaysReachable(s: State, more: seq<Label>, t: State)
    requires Reachable(s) && After(s, more) == Some(t)
    ensures Reachable(t) && t.rule == s.rule && t.ops == s.ops
  {
    ConfigKept(s, more);
    var run: seq<Label> :| After(Init(s.rule, s.ops), run) == Some(s);
    AfterAppend(Init(s.rule, s.ops), run, more);
    assert After(Init(t.rule, t.ops), run + more) == Some(t);
  }

  // ---------------------------------------------------------------- acknowledgments in no-ack mode

  /** The packet turns acknowledgments off. */
  predicate EndsAcks(f: seq<byte>)
  {
    |f| >= 4 && L.Connection.Verifies(f) && L.Request(f) == 'Q' as byte && L.GeneralSet(L.Arguments(f)).startNoAck
  }

  lemma StartsByFrame(ops: L.Ops, i: L.Input)
    ensures L.StartsNoAck(ops, i) <==> EndsAcks(i.frame)
  {
    L.EndsByText(ops, i.frame, i.answer);
  }

  /** The reader is about to send a '+' although acknowledgments are off. */
  predicate AcksLate(s: State)
  {
    s.reader.pc.Acking? && s.main.loop.noAck
  }

  /** If acknowledgments are off, a packet that turned them off has been received. */
  lemma NoAckFrom(s: State, ops: L.Ops, stream: seq<byte>) returns (f: seq<byte>)
    requires Within(s, ops, stream) && s.main.loop.noAck
    ensures f in Frames(stream) && EndsAcks(f)
  {
    LoopSeesPackets(s);
    L.NoAckMode(s.ops, L.START, s.main.inputs);
    var k :| 0 <= k < |s.main.inputs| && L.StartsNoAck(s.ops, s.main.inputs[k]);
    StartsByFrame(s.ops, s.main.inputs[k]);
    f := s.main.inputs[k].frame;
    assert FramesIn(s.main.inputs)[k] == f;
    assert PktFrames(Finished(s.main))[k] == f;
    PacketsInOrder(s);
    var p := s.main.popped[k];
    assert p.frame == f && p in Kept(s.reader.taken, s.reader.dropped);
    KeptOf(s.reader.taken, s.reader.dropped, p);
    TakenWithin(s, ops, stream, p);
  }

  /** The main thread pops the packet that turns acknowledgments off, before the reader acknowledges it. */
  lemma LateAck(ops: L.Ops, stream: seq<byte>, k: nat) returns (t: State)
    requires k < |Frames(stream)| && EndsAcks(Frames(stream)[k])
    ensures Within(t, ops, stream) && AcksLate(t)
  {
    var s := ReaderHolds(ops, stream, k);
    var more;
    more, t := PopAndHandle(s, s.reader.pc.p);
    StaysReachable(s, more, t);
  }

  lemma PopAndHandle(s: State, p: Pkt) returns (more: seq<Label>, t: State)
    requires s.main.pc == Popping && s.shared.queue.items == [p] && EndsAcks(p.frame)
    ensures After(s, more) == Some(t) && t.main.loop.noAck && t.reader == s.reader
  {
    var answer := L.Answer(false, [], ActNone);
    var a, s1 := OneStep(s, true, M(Pop));
    HandledOff(s1, p, answer);
    var b, s2 := OneStep(s1, true, M(Handle(answer)));
    AfterAppend(s, a, b);
    more, t := a + b, s2;
  }

  lemma HandledOff(s: State, p: Pkt, answer: L.Answer)
    requires s.main.pc == Handling(p) && EndsAcks(p.frame)
    ensures var n := Next(s, M(Handle(answer)));
      n.Some? && n.value.main.loop.noAck && n.value.reader == s.reader && n.value.rule == s.rule && n.value.ops == s.ops
  {
    var i := L.Input(p.frame, answer);
    StartsByFrame(s.ops, i);
    L.StepAdds(s.ops, s.main.loop, i);
  }

  /**
   * The reader never acknowledges while acknowledgments are off, in any interleaving, split and part of
   * a stream, if and only if no packet of the stream turns them off.
   */
  lemma NoLateAckExact(ops: L.Ops, stream: seq<byte>)
    ensures (forall s :: Within(s, ops, stream) ==> !AcksLate(s)) <==> forall f :: f in Frames(stream) ==> !EndsAcks(f)
  {
    if f :| f in Frames(stream) && EndsAcks(f) {
      var k :| 0 <= k < |Frames(stream)| && Frames(stream)[k] == f;
      var s := LateAck(ops, stream, k);
      assert Within(s, ops, stream) && AcksLate(s);
    } else {
      forall s | Within(s, ops, stream) ensures !AcksLate(s) {
        if AcksLate(s) {
          var f := NoAckFrom(s, ops, stream);
          assert false;
        }
      }
    }
  }

  // ---------------------------------------------------------------- progress and the close

  /** Past the store of `thread_stop`, in `gdbstub_close`. */
  predicate Closing(pc: MainPc)
  {
    pc == ClosingQueue || QueueClosed(pc)
  }

  /** A step that is not just another look: neither a spurious wakeup nor a fruitless poll. */
  predicate Counts(l: Label)
  {
    l != M(Wake(true)) && l != R(PollAgain)
  }

  /**
   * No deadlock: unless the main thread is done, some thread can take a step that counts; and once the
   * main thread is closing, one in which the peer has no part.
   */
  lemma NoDeadlock(s: State)
    requires Reachable(s) && s.rule == Corrected && s.main.pc != Closed && !s.main.pc.Dead?
    ensures exists l: Label :: Next(s, l).Some? && Counts(l) && (Closing(s.main.pc) ==> WithoutPeer([l]))
  {
    ReachableInv(s);
    var l := CanStep(s);
    assert Next(s, l).Some?;
  }

  /** A step the reader can take: on its own where it can, and told to stop, by seeing that. */
  function ReaderStep(s: State): ReaderLabel
  {
    if s.reader.pc == Polling && s.shared.stop then SeeStop else Advance(s.reader)
  }

  lemma ReaderCanStep(s: State)
    requires s.rule == Corrected && s.reader.pc != ReaderDone
    ensures Next(s, R(ReaderStep(s))).Some? && Counts(R(ReaderStep(s)))
    ensures s.shared.stop ==> WithoutPeer([R(ReaderStep(s))])
  {
    if Phase(s.reader.pc) > 0 {
      AdvanceMoves(s.reader, s.shared);
    }
  }

  lemma CanStep(s: State) returns (l: Label)
    requires Wakes(s) && Flags(s) && s.rule == Corrected && s.main.pc != Closed && !s.main.pc.Dead?
    ensures Next(s, l).Some? && Counts(l) && (Closing(s.main.pc) ==> WithoutPeer([l]))
  {
    if s.reader.pc != ReaderDone { ReaderCanStep(s); }
    match s.main.pc
    case Popping => l := M(Pop);
    case Waiting => l := if s.shared.waiter == Woken then M(Wake(false)) else R(ReaderStep(s));
    case CheckingShutdown => l := M(CheckShutdown);
    case ClearingInterrupt => l := M(ClearInterrupt);
    case Handling(_) => l := M(Handle(L.Answer(true, [], ActNone)));
    case Continuing(_) => l := M(ContReturns);
    case Stopping => l := M(SetStop);
    case ClosingQueue => l := M(CloseSignal);
    case Joining => l := if s.reader.pc == ReaderDone then M(Join) else R(ReaderStep(s));
    case Destroying => l := M(Destroy);
  }

  lemma AppendWithoutPeer(s: State, a: seq<Label>, b: seq<Label>)
    requires After(s, a).Some? && WithoutPeer(a) && WithoutPeer(b)
    ensures After(s, a + b) == After(After(s, a).value, b) && WithoutPeer(a + b)
  {
    AfterAppend(s, a, b);
  }

  /** Told to stop, the reader gets to its end without the peer. */
  lemma ReaderEnds(s: State) returns (run: seq<Label>, t: State)
    requires s.rule == Corrected && s.shared.stop
    ensures After(s, run) == Some(t) && WithoutPeer(run) && t.reader.pc == ReaderDone && t.main == s.main
  {
    var a, s1 := [], s;
    if s.reader.pc == Polling || Phase(s.reader.pc) > 0 {
      a, s1 := ReaderPolls(s);
    }
    var b, s2 := ReaderLeaves(s1);
    AppendWithoutPeer(s, a, b);
    run, t := a + b, s2;
  }

  lemma ReaderLeaves(s: State) returns (run: seq<Label>, t: State)
    requires s.shared.stop && Phase(s.reader.pc) == 0
    ensures After(s, run) == Some(t) && WithoutPeer(run) && t.reader.pc == ReaderDone && t.main == s.main
  {
    var a, s1 := OneStep(s, s.reader.pc == Polling, R(SeeStop));
    var b, s2 := OneStep(s1, s1.reader.pc == Leaving, R(SignalShutdown));
    AppendWithoutPeer(s, a, b);
    run, t := a + b, s2;
  }

  lemma MainCloses(s: State) returns (run: seq<Label>, t: State)
    requires s.reader.pc == ReaderDone && (s.main.pc == ClosingQueue || QueueClosed(s.main.pc))
    ensures After(s, run) == Some(t) && WithoutPeer(run) && t.main.pc == Closed
  {
    var a, s1 := OneStep(s, s.main.pc == ClosingQueue, M(CloseSignal));
    var b, s2 := MainJoins(s1);
    AppendWithoutPeer(s, a, b);
    run, t := a + b, s2;
  }

  lemma MainJoins(s: State) returns (run: seq<Label>, t: State)
    requires s.reader.pc == ReaderDone && QueueClosed(s.main.pc)
    ensures After(s, run) == Some(t) && WithoutPeer(run) && t.main.pc == Closed
  {
    var a, s1 := OneStep(s, s.main.pc == Joining, M(Join));
    var b, s2 := OneStep(s1, s1.main.pc == Destroying, M(Destroy));
    AppendWithoutPeer(s, a, b);
    run, t := a + b, s2;
  }

  /**
   * The close does not depend on the peer: from every reachable state in which `gdbstub_run` has
   * returned, a run leads to the end in which the peer neither sends nor hangs up.
   */
  lemma CloseCompletes(s: State) returns (run: seq<Label>)
    requires Reachable(s) && s.rule == Corrected && (s.main.pc == Stopping || Closing(s.main.pc))
    ensures WithoutPeer(run) && After(s, run).Some? && After(s, run).value.main.pc == Closed
  {
    StopSet(s);
    var a, s1 := OneStep(s, s.main.pc == Stopping, M(SetStop));
    var b, s2 := ClosesFrom(s1);
    AppendWithoutPeer(s, a, b);
    run := a + b;
  }

  lemma StopSet(s: State)
    requires Reachable(s)
    ensures s.shared.stop <==> Closing(s.main.pc)
  {
    ReachableInv(s);
  }

  lemma ClosesFrom(s: State) returns (run: seq<Label>, t: State)
    requires s.rule == Corrected && s.shared.stop && Closing(s.main.pc)
    ensures After(s, run) == Some(t) && WithoutPeer(run) && t.main.pc == Closed
  {
    var a, s1 := ReaderEnds(s);
    var b, s2 := MainCloses(s1);
    AppendWithoutPeer(s, a, b);
    run, t := a + b, s2;
  }
}
