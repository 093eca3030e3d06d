/**
 * The two threads at the socket of src/conn.c: the main thread's `conn_send_str`, which waits for the
 * mutex, and the reader thread's `conn_try_send_str`, which does not. Each thread runs its own send
 * loop, from its own position; only taking the mutex looks at who has it.
 */
module Socket {
  import opened Bytes
  import opened Framing
  import opened Connection

  datatype Sender = MainThread | ReaderThread

  const CONN_SEND_TIMEOUT_MS := 5000

  function Timeout(who: Sender): nat
  {
    if who == MainThread then CONN_SEND_TIMEOUT_MS else 0
  }

  /**
   * How long each is patient: the main thread polls in vain fifty times since the last bytes taken, the
   * reader thread not once; and an EAGAIN ends the reader's send only.
   */
  lemma Patience(events: seq<SendEvent>)
    requires events != []
    ensures events[|events| - 1] == NotWritable ==>
              (Hopeless(Timeout(MainThread), events) <==> VainPolls(events) >= 50)
              && Hopeless(Timeout(ReaderThread), events)
    ensures events[|events| - 1] == WouldBlock ==>
              !Hopeless(Timeout(MainThread), events) && Hopeless(Timeout(ReaderThread), events)
  {
  }

  /** Where a thread is: outside, or in its send loop with what polls and writes have come to so far. */
  datatype Program = Idle | Sending(str: seq<byte>, events: seq<SendEvent>)

  /** A finished send. */
  datatype Turn = Turn(who: Sender, str: seq<byte>, events: seq<SendEvent>)

  datatype Socket = Socket(output: seq<byte>, mutex: Option<Sender>, main: Program, reader: Program,
                           turns: seq<Turn>, skipped: nat)

  const START := Socket([], None, Idle, Idle, [], 0)

  datatype Step = Enter(who: Sender, str: seq<byte>) | Event(who: Sender, e: SendEvent) | Leave(who: Sender)

  function ProgramOf(s: Socket, who: Sender): Program
  {
    if who == MainThread then s.main else s.reader
  }

  function SetProgram(s: Socket, who: Sender, p: Program): Socket
  {
    if who == MainThread then s.(main := p) else s.(reader := p)
  }

  /** What `__conn_send_str` has come to. */
  function Sent(who: Sender, str: seq<byte>, events: seq<SendEvent>): (r: SendState)
    ensures r.written <= |str|
  {
    SendRun(str, Timeout(who), SendState(0, 0, Pending), events)
  }

  /** The bytes a send has put on the socket. */
  function SentBytes(who: Sender, str: seq<byte>, events: seq<SendEvent>): seq<byte>
  {
    str[..Sent(who, str, events).written]
  }

  /** One more event moves a send forward or leaves it where it was. */
  lemma SentGrows(who: Sender, str: seq<byte>, events: seq<SendEvent>, e: SendEvent)
    requires Sent(who, str, events).result == Pending
    ensures var before, after := Sent(who, str, events), Sent(who, str, events + [e]);
      before.written <= after.written
  {
    SendRunSnoc(str, Timeout(who), SendState(0, 0, Pending), events, e);
    assert [e][1..] == [];
  }

  /** The main thread blocks while the mutex is taken; the reader thread then skips its send. */
  function EnterNext(s: Socket, who: Sender, str: seq<byte>): Option<Socket>
  {
    if ProgramOf(s, who) != Idle then None
    else if s.mutex == None then Some(SetProgram(s, who, Sending(str, [])).(mutex := Some(who)))
    else if who == ReaderThread then Some(s.(skipped := s.skipped + 1))
    else None
  }

  /** A poll or a write of a thread in its loop: it depends on that thread's own position alone. */
  function EventNext(s: Socket, who: Sender, e: SendEvent): Option<Socket>
  {
    match ProgramOf(s, who)
    case Idle => None
    case Sending(str, events) =>
      var before, after := Sent(who, str, events), Sent(who, str, events + [e]);
      if before.result != Pending then None
      else
        SentGrows(who, str, events, e);
        Some(SetProgram(s, who, Sending(str, events + [e])).(output := s.output + str[before.written..after.written]))
  }

  /** A thread whose loop has returned lets go of the mutex. */
  function LeaveNext(s: Socket, who: Sender): Option<Socket>
  {
    match ProgramOf(s, who)
    case Idle => None
    case Sending(str, events) =>
      if Sent(who, str, events).result == Pending then None
      else Some(SetProgram(s, who, Idle).(mutex := None, turns := s.turns + [Turn(who, str, events)]))
  }

  function Next(s: Socket, step: Step): Option<Socket>
  {
    match step
    case Enter(who, str) => EnterNext(s, who, str)
    case Event(who, e) => EventNext(s, who, e)
    case Leave(who) => LeaveNext(s, who)
  }

  function Run(s: Socket, steps: seq<Step>): Option<Socket>
    decreases |steps|
  {
    if steps == [] then Some(s)
    else
      var n := Next(s, steps[0]);
      if n == None then None else Run(n.value, steps[1..])
  }

  // ---------------------------------------------------------------- mutual exclusion

  /** A thread is inside its send exactly when it has the mutex; so never are both. */
  predicate Excludes(s: Socket)
  {
    forall who :: s.mutex == Some(who) <==> ProgramOf(s, who) != Idle
  }

  lemma ExcludesStep(s: Socket, step: Step)
    requires Excludes(s) && Next(s, step).Some?
    ensures Excludes(Next(s, step).value)
  {
    var n := Next(s, step).value;
    forall who ensures n.mutex == Some(who) <==> ProgramOf(n, who) != Idle {
      assert s.mutex == Some(who) <==> ProgramOf(s, who) != Idle;
      assert s.mutex == Some(step.who) <==> ProgramOf(s, step.who) != Idle;
    }
  }

  // ---------------------------------------------------------------- what is on the socket

  function TurnOutput(turns: seq<Turn>): seq<byte>
  {
    if turns == [] then []
    else
      var t := turns[|turns| - 1];
      TurnOutput(turns[..|turns| - 1]) + SentBytes(t.who, t.str, t.events)
  }

  /** What the thread inside has sent so far. */
  function Current(s: Socket): seq<byte>
  {
    match s.mutex
    case None => []
    case Some(who) =>
      var p := ProgramOf(s, who);
      if p == Idle then [] else SentBytes(who, p.str, p.events)
  }

  /** Every finished send has returned. */
  predicate Returned(t: Turn)
  {
    Sent(t.who, t.str, t.events).result != Pending
  }

  ghost predicate TurnByTurn(s: Socket)
  {
    && Excludes(s)
    && s.output == TurnOutput(s.turns) + Current(s)
    && forall t :: t in s.turns ==> Returned(t)
  }

  lemma EventTurnByTurn(s: Socket, who: Sender, e: SendEvent)
    requires TurnByTurn(s) && EventNext(s, who, e).Some?
    ensures EventNext(s, who, e).value.output == TurnOutput(s.turns) + Current(EventNext(s, who, e).value)
  {
    var p := ProgramOf(s, who);
    assert s.mutex == Some(who);
    var before, after := Sent(who, p.str, p.events), Sent(who, p.str, p.events + [e]);
    SentGrows(who, p.str, p.events, e);
    Reassociate(TurnOutput(s.turns), p.str[..before.written], p.str[before.written..after.written]);
    assert p.str[..before.written] + p.str[before.written..after.written] == p.str[..after.written];
  }

  lemma LeaveTurnByTurn(s: Socket, who: Sender)
    requires TurnByTurn(s) && LeaveNext(s, who).Some?
    ensures var n := LeaveNext(s, who).value; n.output == TurnOutput(n.turns) + Current(n)
  {
    var n := LeaveNext(s, who).value;
    assert s.mutex == Some(who);
    assert n.turns[..|n.turns| - 1] == s.turns;
    assert TurnOutput(n.turns) + [] == TurnOutput(n.turns);
  }

  lemma EnterTurnByTurn(s: Socket, who: Sender, str: seq<byte>)
    requires TurnByTurn(s) && EnterNext(s, who, str).Some?
    ensures var n := EnterNext(s, who, str).value; n.output == TurnOutput(n.turns) + Current(n)
  {
    var start := SendState(0, 0, Pending);
    assert SendRun(str, Timeout(who), start, []).written == 0;
  }

  lemma TurnStep(s: Socket, step: Step)
    requires TurnByTurn(s) && Next(s, step).Some?
    ensures TurnByTurn(Next(s, step).value) && s.turns <= Next(s, step).value.turns
  {
    ExcludesStep(s, step);
    match step
    case Enter(who, str) => EnterTurnByTurn(s, who, str);
    case Event(who, e) => EventTurnByTurn(s, who, e);
    case Leave(who) => LeaveTurnByTurn(s, who);
  }

  /**
   * However the two threads interleave and whatever polls and writes come to, one thread at most is
   * inside, and the output is what each finished send wrote, in turn order, and then what the
   * current one has written: never mixed.
   */
  lemma {:induction false} NeverInterleaved(s: Socket, steps: seq<Step>)
    requires TurnByTurn(s) && Run(s, steps).Some?
    ensures TurnByTurn(Run(s, steps).value) && s.turns <= Run(s, steps).value.turns
    decreases |steps|
  {
    if steps != [] {
      TurnStep(s, steps[0]);
      NeverInterleaved(Next(s, steps[0]).value, steps[1..]);
    }
  }

  ghost predicate Reachable(s: Socket)
  {
    exists steps: seq<Step> :: Run(START, steps) == Some(s)
  }

  /** In every reachable state; and a finished send wrote its whole string exactly when it returned true. */
  lemma SocketOutput(s: Socket)
    requires Reachable(s)
    ensures Excludes(s) && s.output == TurnOutput(s.turns) + Current(s)
    ensures forall t :: t in s.turns ==> Returned(t) && (Succeeded(t) <==> SentBytes(t.who, t.str, t.events) == t.str)
  {
    var steps: seq<Step> :| Run(START, steps) == Some(s);
    assert TurnByTurn(START);
    NeverInterleaved(START, steps);
    forall t | t in s.turns
      ensures Returned(t) && (Succeeded(t) <==> SentBytes(t.who, t.str, t.events) == t.str)
    {
      WholeExactly(t);
    }
  }

  predicate Succeeded(t: Turn)
  {
    Sent(t.who, t.str, t.events).result == Finished(true)
  }

  lemma WholeExactly(t: Turn)
    ensures Succeeded(t) <==> SentBytes(t.who, t.str, t.events) == t.str
  {
    SendAllOrReport(t.str, Timeout(t.who), SendState(0, 0, Pending), t.events);
    var n := Sent(t.who, t.str, t.events).written;
    assert t.str[..n] == t.str <==> n == |t.str|;
  }

  /**
   * The reader thread never waits: it sends when the mutex is free and else gives up its '+', with nothing
   * on the socket and no turn. The main thread waits, and gets its turn when the mutex is free.
   */
  lemma WhoWaits(s: Socket, str: seq<byte>)
    requires Reachable(s)
    ensures s.reader == Idle ==>
      var n := Next(s, Enter(ReaderThread, str));
      && n.Some? && n.value.output == s.output && n.value.turns == s.turns
      && (n.value.reader == Sending(str, []) <==> s.main == Idle) && n.value.main == s.main
    ensures s.main == Idle ==>
      var n := Next(s, Enter(MainThread, str));
      && (n.Some? <==> s.reader == Idle)
      && (n.Some? ==> n.value.main == Sending(str, []) && n.value.output == s.output && n.value.turns == s.turns)
  {
    SocketOutput(s);
    assert s.mutex == Some(MainThread) <==> ProgramOf(s, MainThread) != Idle;
    assert s.mutex == Some(ReaderThread) <==> ProgramOf(s, ReaderThread) != Idle;
  }

  /** No thread waits for ever on the mutex: whoever has it can go on, with whatever the poll comes to. */
  lemma HolderCanGo(s: Socket, e: SendEvent)
    requires Reachable(s) && s.mutex.Some?
    ensures var who := s.mutex.value; Next(s, Event(who, e)).Some? || Next(s, Leave(who)).Some?
  {
    SocketOutput(s);
    var p := ProgramOf(s, s.mutex.value);
    assert p != Idle;
    if Sent(s.mutex.value, p.str, p.events).result == Pending {
      SentGrows(s.mutex.value, p.str, p.events, e);
    }
  }
}
