/** src/conn.c: building and checking frames, and the partial-write loop. */
module Connection {
  import opened Bytes
  import opened Codec
  import opened Framing
  import opened ArrayFramer
  import opened Protocol

  const MAX_SEND_PACKET_SIZE := 0x1000

  /** A C string in a buffer: the bytes before the first NUL. */
  function CStr(buf: seq<byte>): seq<byte>
  {
    buf[..IndexOf(buf, 0)]
  }

  lemma StringOf(s: seq<byte>, text: seq<byte>)
    requires |text| < |s| && s[..|text| + 1] == text + [0] && 0 !in text
    ensures 0 in s && CStr(s) == text
  {
    assert s[|text|] == s[..|text| + 1][|text|] == 0;
    assert s[..|text|] == s[..|text| + 1][..|text|] == text;
    IndexOfIs(s, 0, |text|);
  }

  lemma NoNulInHex(s: seq<byte>)
    ensures 0 !in HexEncode(s)
  {
    HexEncodeDigits(s);
    assert !IsHexDigit(0);
  }

  // ---------------------------------------------------------------- frames

  /** '$', the payload, '#', and the checksum in two lower-case hex digits. */
  function FrameOf(payload: seq<byte>): (f: seq<byte>)
    ensures |f| == |payload| + 4
  {
    [DOLLAR] + payload + [HASH] + HexEncode([Checksum(payload)])
  }

  function FramesOf(payloads: seq<seq<byte>>): (fs: seq<seq<byte>>)
    ensures |fs| == |payloads|
  {
    seq(|payloads|, i requires 0 <= i < |payloads| => FrameOf(payloads[i]))
  }

  /** The sender's size assertion: two delimiters, two digits and a NUL must fit with room to spare. */
  predicate Sendable(payload: seq<byte>)
  {
    |payload| + 2 + CSUM_SIZE + 1 < MAX_SEND_PACKET_SIZE
  }

  function PayloadOf(frame: seq<byte>): seq<byte>
    requires |frame| >= 4
  {
    frame[1..|frame| - 3]
  }

  /** The checksum digits say what the payload sums to. */
  predicate Verifies(frame: seq<byte>)
    requires |frame| >= 4
  {
    Checksum(PayloadOf(frame)) == DecodePair(frame[|frame| - 2], frame[|frame| - 1])
  }

  lemma ChecksumDigits(c: byte)
    ensures HexEncode([c]) == [HexDigit(c / 16), HexDigit(c % 16)]
    ensures DecodePair(HexDigit(c / 16), HexDigit(c % 16)) == c
    ensures 0 !in HexEncode([c])
  {
  }

  lemma FrameParts(payload: seq<byte>)
    ensures var f := FrameOf(payload);
      && f[0] == DOLLAR && f[|f| - 3] == HASH && f[..|f| - 3] == [DOLLAR] + payload
      && PayloadOf(f) == payload
      && [f[|f| - 2], f[|f| - 1]] == HexEncode([Checksum(payload)])
  {
  }

  /** Build and parse are inverse: a built frame is a frame, carries its payload and is accepted. */
  lemma FrameRoundTrip(payload: seq<byte>)
    ensures IsFrame(FrameOf(payload)) <==> HASH !in payload
    ensures PayloadOf(FrameOf(payload)) == payload && Verifies(FrameOf(payload))
  {
    FrameParts(payload);
    ChecksumDigits(Checksum(payload));
    var f := FrameOf(payload);
    assert [f[|f| - 2], f[|f| - 1]][0] == f[|f| - 2] && [f[|f| - 2], f[|f| - 1]][1] == f[|f| - 1];
    assert HASH in [DOLLAR] + payload <==> HASH in payload;
  }

  /** A frame as it is on the wire: the stub's "OK". */
  lemma KnownReply()
    ensures FrameOf(Ascii("OK")) == Ascii("$OK#9a")
  {
    assert Ascii("OK") == [0x4f] + [0x4b];
    ChecksumLaws([0x4f], [0x4b], 0x4f);
    ChecksumByte(0x4b);
  }

  /** And one that a client sends: "$?#3f" is accepted, the digits 46 would not be. */
  lemma KnownRequest()
    ensures Verifies(Ascii("$?#3f")) && !Verifies(Ascii("$?#46"))
  {
    QueryFrame(Ascii("$?#3f"), 0x33, 0x66);
    QueryFrame(Ascii("$?#46"), 0x34, 0x36);
  }

  lemma QueryFrame(f: seq<byte>, high: byte, low: byte)
    requires |f| == 5 && f[1] == 0x3f && f[3] == high && f[4] == low
    ensures high == 0x33 && low == 0x66 ==> Verifies(f)
    ensures high == 0x34 && low == 0x36 ==> !Verifies(f)
  {
    ByteFrame(f, 0x3f);
    KnownDigits();
  }

  lemma ByteFrame(f: seq<byte>, b: byte)
    requires |f| == 5 && f[1] == b
    ensures Verifies(f) <==> DecodePair(f[3], f[4]) == b
  {
    assert PayloadOf(f) == [b];
    ChecksumByte(b);
  }

  lemma KnownDigits()
    ensures DecodePair(0x33, 0x66) == 0x3f && DecodePair(0x34, 0x36) == 0x46
  {
  }

  /**
   * Replacing one payload byte of an accepted packet is noticed, whatever the byte and however its
   * digits are written.
   */
  lemma CorruptionDetected(frame: seq<byte>, i: nat, b: byte)
    requires |frame| >= 4 && Verifies(frame) && i < |PayloadOf(frame)|
    ensures Verifies(frame[i + 1 := b]) <==> b == PayloadOf(frame)[i]
  {
    ReplacedPayload(frame, frame[i + 1 := b], i, b);
    ChecksumUpdate(PayloadOf(frame), i, b);
  }

  lemma ReplacedPayload(frame: seq<byte>, g: seq<byte>, i: nat, b: byte)
    requires |frame| >= 4 && i < |PayloadOf(frame)| && g == frame[i + 1 := b]
    ensures PayloadOf(g) == PayloadOf(frame)[i := b]
    ensures g[|g| - 2] == frame[|frame| - 2] && g[|g| - 1] == frame[|frame| - 1]
  {
  }

  /**
   * Any list of payloads without '#', framed and sent with acknowledgments or other '$'-free bytes
   * in between, is received as exactly those frames, however the stream is split into reads and
   * whatever memory lies behind the bytes received.
   */
  lemma SentIsReceived(payloads: seq<seq<byte>>, gaps: seq<seq<byte>>, b: Buffer, rs: seq<Read>)
    requires forall p :: p in payloads ==> HASH !in p
    requires |gaps| == |payloads| + 1 && forall g :: g in gaps ==> DOLLAR !in g
    requires Sound(b) && b.size == 0 && Concat(Chunks(rs)) == Interleave(gaps, FramesOf(payloads), [])
    ensures var r := Receive(Corrected, b, rs);
      Delivered(r) == FramesOf(payloads) && Left([], r) == []
  {
    forall f | f in FramesOf(payloads) ensures IsFrame(f) {
      var i :| 0 <= i < |payloads| && f == FrameOf(payloads[i]);
      assert payloads[i] in payloads;
      FrameRoundTrip(payloads[i]);
    }
    PartitionUnique(gaps, FramesOf(payloads), []);
    ChunkingInvariance(b, rs);
  }

  /** `conn_send_pktstr` up to the send: the string it hands to the socket, or `None` when the assertion fails. */
  method BuildPacket(pktstr: seq<byte>) returns (r: Option<seq<byte>>)
    requires 0 !in pktstr
    ensures r == if Sendable(pktstr) then Some(FrameOf(pktstr)) else None
  {
    var packet := new byte[MAX_SEND_PACKET_SIZE](i => 0);
    var len := |pktstr|;
    if !(len + 2 + CSUM_SIZE + 1 < MAX_SEND_PACKET_SIZE) {
      return None;
    }
    packet[0] := DOLLAR;
    forall i | 0 <= i < len {
      packet[1 + i] := pktstr[i];
    }
    packet[len + 1] := HASH;
    ghost var front := packet[..len + 2];
    assert front == [DOLLAR] + pktstr + [HASH];
    var csum := ComputeChecksum(pktstr);
    HexToStr([csum], packet, len + 2);
    ghost var digits := HexEncode([csum]);
    ChecksumDigits(csum);
    assert packet[..len + 5] == front + (digits + [0]);
    BuiltString(packet[..], pktstr);
    var str := CString(packet);
    r := Some(str);
  }

  /** strlen, and the bytes before the NUL. */
  method CString(a: array<byte>) returns (s: seq<byte>)
    requires 0 in a[..]
    ensures s == CStr(a[..])
  {
    var n := 0;
    while a[n] != 0
      invariant 0 <= n < a.Length && 0 !in a[..n] && 0 in a[n..]
      decreases a.Length - n
    {
      assert a[n..] == [a[n]] + a[n + 1..];
      n := n + 1;
    }
    assert a[..][..n] == a[..n];
    IndexOfIs(a[..], 0, n);
    s := a[..n];
  }

  lemma BuiltString(packet: seq<byte>, pktstr: seq<byte>)
    requires 0 !in pktstr && |pktstr| + 5 <= |packet|
    requires packet[..|pktstr| + 5] == [DOLLAR] + pktstr + [HASH] + (HexEncode([Checksum(pktstr)]) + [0])
    ensures 0 in packet && CStr(packet) == FrameOf(pktstr)
  {
    ChecksumDigits(Checksum(pktstr));
    assert packet[..|pktstr| + 5] == FrameOf(pktstr) + [0];
    StringOf(packet, FrameOf(pktstr));
  }

  /** `packet_csum_verify` on a packet with the given last index. */
  method CsumVerify(data: seq<byte>, endPos: int) returns (ok: bool)
    requires 3 <= endPos < |data|
    ensures ok == Verifies(data[..endPos + 1])
  {
    var rslt := ComputeChecksum(data[1..1 + (endPos - CSUM_SIZE - 1)]);
    assert PayloadOf(data[..endPos + 1]) == data[1..1 + (endPos - CSUM_SIZE - 1)];
    var expected := DecodePair(data[endPos - CSUM_SIZE + 1], data[endPos]);
    ok := rslt == expected;
  }

  // ---------------------------------------------------------------- the connection

  predicate Plain(text: string)
  {
    forall c :: c in text ==> 0 < c as int < 256
  }

  lemma PlainText(text: string)
    requires Plain(text)
    ensures 0 !in Ascii(text)
  {
    forall i | 0 <= i < |text| ensures Ascii(text)[i] != 0 {
      assert text[i] in text;
    }
  }

  /** `conn_t`: its protocol state, and what the main thread has handed to the socket. */
  class Conn {
    var noAckMode: bool
    var failureCount: nat
    var out: seq<Out>

    constructor ()
      ensures !noAckMode && failureCount == 0 && out == []
    {
      noAckMode, failureCount, out := false, 0, [];
    }

    /** `conn_send_pktstr`: nothing goes out, and the program ends, when the size assertion fails. */
    method SendPktStr(text: seq<byte>) returns (ok: bool)
      requires 0 !in text
      modifies this`out
      ensures ok == Sendable(text) && out == old(out) + if ok then [Reply(text)] else []
    {
      var packet := BuildPacket(text);
      if packet == None {
        return false;
      }
      out := out + [Reply(PayloadOf(packet.value))];
      FrameRoundTrip(text);
      return true;
    }

    /** `conn_send_str` with `STR_ACK` or `STR_NACK`. */
    method SendAck(ok: bool)
      modifies this`out
      ensures out == old(out) + [if ok then Ack else Nack]
    {
      out := out + [if ok then Ack else Nack];
    }

    /** The reply of a handler that found an error. */
    method SendError(code: int32)
      modifies this`out
      ensures Sendable(ErrorText(code)) && out == old(out) + [Reply(ErrorText(code))]
    {
      ErrorTextShort(code);
      var _ := SendPktStr(ErrorText(code));
    }

    /** `hex_to_str` into the packet buffer, and the buffer sent. */
    method SendHex(num: seq<byte>) returns (ok: bool)
      requires 2 * |num| < MAX_SEND_PACKET_SIZE
      modifies this`out
      ensures ok == Sendable(HexEncode(num)) && out == old(out) + if ok then [Reply(HexEncode(num))] else []
    {
      var packetStr := new byte[MAX_SEND_PACKET_SIZE](i => 0);
      HexToStr(num, packetStr, 0);
      NoNulInHex(num);
      StringOf(packetStr[..], HexEncode(num));
      var text := CString(packetStr);
      ok := SendPktStr(text);
    }

    /** A fixed reply. */
    method SendFixed(text: string)
      requires |text| < 100 && Plain(text)
      modifies this`out
      ensures out == old(out) + [Reply(Ascii(text))]
    {
      PlainText(text);
      var _ := SendPktStr(Ascii(text));
    }
  }

  // ---------------------------------------------------------------- the send loop

  const CONN_SEND_POLL_MS := 100

  /** What one round of the loop meets: no room within the poll, a write error, or bytes taken. */
  datatype SendEvent = NotWritable | Interrupted | WouldBlock | Fatal | Wrote(n: nat)

  datatype SendResult = Pending | Finished(ok: bool)

  /** How far a send has come: bytes written, time waited since the last progress, and its result. */
  datatype SendState = SendState(written: nat, waited: nat, result: SendResult)

  function SendStep(str: seq<byte>, timeout: nat, s: SendState, e: SendEvent): (r: SendState)
    requires s.written <= |str|
    ensures r.written <= |str|
  {
    if s.result != Pending then s
    else if s.written == |str| then s.(result := Finished(true))
    else
      match e
      case NotWritable =>
        var waited := s.waited + CONN_SEND_POLL_MS;
        s.(waited := waited, result := if waited >= timeout then Finished(false) else Pending)
      case Interrupted => s
      case WouldBlock => if timeout > 0 then s else s.(result := Finished(false))
      case Fatal => s.(result := Finished(false))
      case Wrote(n) =>
        SendState(s.written + if n < |str| - s.written then n else |str| - s.written, 0, Pending)
  }

  function SendRun(str: seq<byte>, timeout: nat, s: SendState, events: seq<SendEvent>): (r: SendState)
    requires s.written <= |str|
    ensures r.written <= |str|
    decreases |events|
  {
    if events == [] then (if s.result == Pending && s.written == |str| then s.(result := Finished(true)) else s)
    else SendRun(str, timeout, SendStep(str, timeout, s, events[0]), events[1..])
  }

  /** Whatever polls and writes do, the loop reports success exactly when the whole string went out. */
  lemma {:induction false} SendAllOrReport(str: seq<byte>, timeout: nat, s: SendState, events: seq<SendEvent>)
    requires s.written <= |str|
    requires s.result != Pending ==> (s.result == Finished(true) <==> s.written == |str|)
    ensures SendRun(str, timeout, s, events).result == Finished(true)
      <==> SendRun(str, timeout, s, events).written == |str|
    decreases |events|
  {
    if events != [] {
      SendAllOrReport(str, timeout, SendStep(str, timeout, s, events[0]), events[1..]);
    }
  }

  /** Polled in vain, the loop gives up exactly when the waits since the last progress add up to the timeout. */
  lemma {:induction false} GivesUpOnTime(str: seq<byte>, timeout: nat, s: SendState, polls: seq<SendEvent>)
    requires s.written < |str| && s.result == Pending
    requires forall e :: e in polls ==> e == NotWritable
    ensures var r := SendRun(str, timeout, s, polls);
      && r.written == s.written
      && (r.result == Finished(false) <==> polls != [] && s.waited + CONN_SEND_POLL_MS * |polls| >= timeout)
    decreases |polls|
  {
    if polls != [] {
      assert polls[0] in polls;
      var s' := SendStep(str, timeout, s, polls[0]);
      assert forall e :: e in polls[1..] ==> e in polls;
      if s'.result == Pending {
        GivesUpOnTime(str, timeout, s', polls[1..]);
      } else {
        StaysReturned(str, timeout, s', polls[1..]);
      }
    }
  }

  lemma {:induction false} StaysReturned(str: seq<byte>, timeout: nat, s: SendState, events: seq<SendEvent>)
    requires s.written <= |str| && s.result != Pending
    ensures SendRun(str, timeout, s, events) == s
    decreases |events|
  {
    if events != [] {
      StaysReturned(str, timeout, s, events[1..]);
    }
  }

  lemma {:induction false} SendRunSnoc(str: seq<byte>, timeout: nat, s: SendState, events: seq<SendEvent>,
                                       e: SendEvent)
    requires s.written <= |str|
    ensures SendRun(str, timeout, s, events + [e]) == SendRun(str, timeout, SendRun(str, timeout, s, events), [e])
    decreases |events|
  {
    if events == [] {
      assert events + [e] == [e] && [e][1..] == [];
      if s.result == Pending && s.written == |str| {
        StaysReturned(str, timeout, s.(result := Finished(true)), [e]);
      }
    } else {
      assert (events + [e])[1..] == events[1..] + [e];
      SendRunSnoc(str, timeout, SendStep(str, timeout, s, events[0]), events[1..], e);
    }
  }

  /** The bytes the writes have taken. */
  function TakenBy(events: seq<SendEvent>): nat
  {
    if events == [] then 0
    else
      var e := events[|events| - 1];
      TakenBy(events[..|events| - 1]) + if e.Wrote? then e.n else 0
  }

  /** The polls in vain since the last write that took any or none. */
  function VainPolls(events: seq<SendEvent>): nat
  {
    if events == [] then 0
    else
      match events[|events| - 1]
      case Wrote(_) => 0
      case NotWritable => VainPolls(events[..|events| - 1]) + 1
      case _ => VainPolls(events[..|events| - 1])
  }

  /** The last event makes a send give up: a write error other than EINTR and EAGAIN, or one poll in vain too many. */
  predicate Hopeless(timeout: nat, events: seq<SendEvent>)
    requires events != []
  {
    match events[|events| - 1]
    case Fatal => true
    case WouldBlock => timeout == 0
    case NotWritable => 100 * VainPolls(events) >= timeout
    case _ => false
  }

  /** None of the events ends the send. */
  predicate GoesOn(str: seq<byte>, timeout: nat, events: seq<SendEvent>)
  {
    && TakenBy(events) < |str|
    && (events != [] ==> !Hopeless(timeout, events) && GoesOn(str, timeout, events[..|events| - 1]))
  }

  lemma SendStarts(str: seq<byte>, timeout: nat)
    ensures SendRun(str, timeout, SendState(0, 0, Pending), [])
         == SendState(0, 0, if str == [] then Finished(true) else Pending)
  {
  }

  lemma OneEvent(str: seq<byte>, timeout: nat, s: SendState, e: SendEvent)
    requires s.written <= |str|
    ensures SendRun(str, timeout, s, [e]) == SendRun(str, timeout, SendStep(str, timeout, s, e), [])
  {
    assert [e][1..] == [];
  }

  /** How far a send has come that nothing has ended. */
  lemma {:induction false} SendGoesOn(str: seq<byte>, timeout: nat, events: seq<SendEvent>)
    requires GoesOn(str, timeout, events)
    ensures SendRun(str, timeout, SendState(0, 0, Pending), events)
         == SendState(TakenBy(events), 100 * VainPolls(events), Pending)
    decreases |events|
  {
    if events != [] {
      var front, e := events[..|events| - 1], events[|events| - 1];
      SendGoesOn(str, timeout, front);
      SendSnoc(str, timeout, events, front, e);
    }
  }

  lemma SendSnoc(str: seq<byte>, timeout: nat, events: seq<SendEvent>, front: seq<SendEvent>, e: SendEvent)
    requires events == front + [e]
    ensures var before := SendRun(str, timeout, SendState(0, 0, Pending), front);
      SendRun(str, timeout, SendState(0, 0, Pending), events)
      == SendRun(str, timeout, SendStep(str, timeout, before, e), [])
  {
    SendRunSnoc(str, timeout, SendState(0, 0, Pending), front, e);
    OneEvent(str, timeout, SendRun(str, timeout, SendState(0, 0, Pending), front), e);
  }

  /**
   * The whole loop, for any events: as long as none ends it, it has written what the writes took; it
   * returns false at the first that is hopeless and true when the string is out, and stays there.
   */
  lemma SendMeaning(str: seq<byte>, timeout: nat, before: seq<SendEvent>, e: SendEvent, more: seq<SendEvent>)
    requires GoesOn(str, timeout, before)
    ensures var events := before + [e];
      var r := SendRun(str, timeout, SendState(0, 0, Pending), events + more);
      && (Hopeless(timeout, events) ==> r.result == Finished(false) && r.written == TakenBy(before))
      && (TakenBy(events) >= |str| ==> r.result == Finished(true) && r.written == |str|)
  {
    var start, events := SendState(0, 0, Pending), before + [e];
    assert events[..|before|] == before;
    SendGoesOn(str, timeout, before);
    SendSnoc(str, timeout, events, before, e);
    if Hopeless(timeout, events) || TakenBy(events) >= |str| {
      SendRunAppend(str, timeout, start, events, more);
      StaysReturned(str, timeout, SendRun(str, timeout, start, events), more);
    }
  }

  lemma {:induction false} SendRunAppend(str: seq<byte>, timeout: nat, s: SendState, events: seq<SendEvent>,
                                         more: seq<SendEvent>)
    requires s.written <= |str| && SendRun(str, timeout, s, events).result != Pending
    ensures SendRun(str, timeout, s, events + more) == SendRun(str, timeout, SendRun(str, timeout, s, events), more)
    decreases |events|
  {
    if events == [] {
      assert events + more == more;
    } else {
      assert (events + more)[1..] == events[1..] + more;
      SendRunAppend(str, timeout, SendStep(str, timeout, s, events[0]), events[1..], more);
    }
  }

  /**
   * `__conn_send_str`: `sent` is what reached the socket. The result is `Pending` when the events
   * given so far do not make the loop return.
   */
  method SendStr(str: seq<byte>, timeout: nat, events: seq<SendEvent>) returns (result: SendResult, sent: seq<byte>)
    ensures var r := SendRun(str, timeout, SendState(0, 0, Pending), events);
      result == r.result && sent == str[..r.written]
    ensures sent <= str && (result == Finished(true) <==> sent == str)
  {
    ghost var start := SendState(0, 0, Pending);
    var pos, len, totalWaited, i := 0, |str|, 0, 0;
    SendAllOrReport(str, timeout, start, events);
    result, sent := Pending, [];
    while len > 0 && i < |events|
      invariant 0 <= i <= |events| && 0 <= pos <= |str| && pos + len == |str| && totalWaited >= 0
      invariant sent == str[..pos]
      invariant SendRun(str, timeout, start, events)
             == SendRun(str, timeout, SendState(pos, totalWaited, Pending), events[i..])
      decreases |events| - i
    {
      var e := events[i];
      assert events[i..][0] == e && events[i..][1..] == events[i + 1..];
      i := i + 1;
      if e == NotWritable {
        totalWaited := totalWaited + CONN_SEND_POLL_MS;
        if totalWaited >= timeout {
          StaysReturned(str, timeout, SendState(pos, totalWaited, Finished(false)), events[i..]);
          return Finished(false), sent;
        }
        continue;
      }
      if !e.Wrote? {
        if e == Interrupted || (timeout > 0 && e == WouldBlock) {
          continue;
        }
        StaysReturned(str, timeout, SendState(pos, totalWaited, Finished(false)), events[i..]);
        return Finished(false), sent;
      }
      var nwrite := if e.n < len then e.n else len;
      sent := sent + str[pos..pos + nwrite];
      pos, len, totalWaited := pos + nwrite, len - nwrite, 0;
    }
    if len == 0 {
      result := Finished(true);
      DoneReturns(str, timeout, totalWaited, events[i..]);
    }
  }

  lemma DoneReturns(str: seq<byte>, timeout: nat, waited: nat, events: seq<SendEvent>)
    ensures SendRun(str, timeout, SendState(|str|, waited, Pending), events) == SendState(|str|, waited, Finished(true))
  {
    if events != [] {
      StaysReturned(str, timeout, SendState(|str|, waited, Finished(true)), events[1..]);
    }
  }
}
