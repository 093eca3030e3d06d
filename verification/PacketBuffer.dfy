/** src/packet.c: the growable receive buffer, at the level of its array, and the reader's inner loop over it. */
module PacketBuffer {
  import opened Bytes
  import opened Framing
  import opened ArrayFramer

  const DEFAULT_CAP := 10

  lemma DefaultSize()
    ensures Pow2(DEFAULT_CAP) == 1024
  {
    assert Pow2(5) == 32;
    assert Pow2(9) == 16 * Pow2(5);
  }

  /** `packet_t`: the frame's bytes, a NUL, and the index of the last frame byte. */
  datatype Packet = Packet(endPos: int, data: seq<byte>)

  function PacketOf(frame: seq<byte>): Packet
  {
    Packet(|frame| - 1, frame + [0])
  }

  function PacketsOf(frames: seq<seq<byte>>): (packets: seq<Packet>)
    ensures |packets| == |frames|
  {
    seq(|frames|, i requires 0 <= i < |frames| => PacketOf(frames[i]))
  }

  datatype PopResult = NoPacket | PacketTaken(packet: Packet) | MemoryError

  /** `endPos` is -1, or the last byte of the packet that heads the valid bytes `s`. */
  predicate EndOf(rule: PopRule, endPos: int, s: seq<byte>)
  {
    endPos != -1 ==> Complete(rule, s) && s[0] == DOLLAR && endPos == FrameLength(s) - 1
  }

  class PacketBuffer {
    var size: nat
    var cap: nat
    var endPos: int
    var data: array<byte>
    const rule: PopRule
    /** The whole array, and how many of its bytes are valid. */
    ghost var view: Buffer
    /** The largest size so far. */
    ghost var peak: nat

    ghost predicate Shape()
      reads this, data
    {
      size <= data.Length && view == Buffer(data[..], size)
    }

    ghost predicate Valid()
      reads this, data
    {
      && Shape()
      && data.Length == Pow2(cap)
      && size <= peak
      && (Pow2(cap) <= 1024 || Pow2(cap) <= 2 * peak)
      && EndOf(rule, endPos, Contents(view))
    }

    /** `pktbuf_init`: 1024 zeroed bytes. */
    constructor (rule: PopRule)
      ensures Valid() && fresh(data) && this.rule == rule && endPos == -1 && peak == 0
      ensures view == Zeroed()
    {
      DefaultSize();
      this.rule := rule;
      cap, size, endPos := DEFAULT_CAP, 0, -1;
      view, peak := Zeroed(), 0;
      data := new byte[1024](i => 0);
      new;
      assert data[..] == view.data;
    }

    /** The enlarging half of `pktbuf_fill_from_file`: a full buffer is doubled, what lies behind is arbitrary. */
    method Enlarge()
      requires Valid()
      modifies this`cap, this`data, this`view
      ensures Valid() && (data == old(data) || fresh(data))
      ensures cap == old(cap) + if old(size) == old(data.Length) then 1 else 0
      ensures size < data.Length && Contents(view) == Contents(old(view))
      ensures old(size) < old(data.Length) ==> view == old(view)
    {
      if Pow2(cap) == size {
        var bigger := Bigger(2 * Pow2(cap));
        SamePrefix(view, bigger[..]);
        cap, data, view := cap + 1, bigger, Buffer(bigger[..], size);
      }
    }

    /** `realloc`: the bytes there are, with arbitrary ones behind. */
    method Bigger(n: nat) returns (bigger: array<byte>)
      requires Shape() && size == data.Length <= n
      ensures fresh(bigger) && bigger.Length == n && bigger[..size] == view.data
    {
      bigger := new byte[n];
      forall i | 0 <= i < size {
        bigger[i] := data[i];
      }
    }

    /**
     * `pktbuf_fill_from_file`: the file has `avail` to give and the kernel hands over any part of it
     * that fits, at least one byte if there is one. There is always room, so reading nothing means
     * the stream has ended.
     */
    method Fill(avail: seq<byte>, kernel: nat) returns (nread: nat, ghost behind: seq<byte>)
      requires Valid()
      modifies this`size, this`cap, this`data, this`view, this`peak, data
      ensures Valid() && (data == old(data) || fresh(data))
      ensures nread <= |avail| && view == Filled(old(view), Read(avail[..nread], behind))
      ensures nread == 0 <==> avail == []
      ensures cap == old(cap) + if old(size) == old(data.Length) then 1 else 0
    {
      ghost var was := view;
      Enlarge();
      ghost var now := view;
      var left := Pow2(cap) - size;
      nread := Min(if kernel == 0 then 1 else kernel, Min(left, |avail|));
      Append(avail[..nread]);
      behind := view.data[view.size..];
      FilledAs(was, now, view, avail[..nread], behind);
      KeepsEnd(rule, endPos, Contents(was), avail[..nread], Contents(view));
    }

    /** The bytes the kernel stores behind the valid ones. */
    method Append(s: seq<byte>)
      requires Shape() && size + |s| <= data.Length
      modifies this`size, this`view, this`peak, data
      ensures Shape()
      ensures view == Buffer(old(view.data)[..old(size)] + s + old(view.data)[old(size) + |s|..], old(size) + |s|)
      ensures peak == if size > old(peak) then size else old(peak)
    {
      forall i | 0 <= i < |s| {
        data[size + i] := s[i];
      }
      assert data[..] == view.data[..size] + s + view.data[size + |s|..];
      size := size + |s|;
      view := Buffer(data[..], size);
      peak := if size > peak then size else peak;
    }

    /** memmove(data, data + from, n), after which `n` bytes are valid. */
    method MoveDown(from: nat, n: nat)
      requires Shape() && from + n <= data.Length
      modifies this`size, this`view, data
      ensures Shape() && view == MovedDown(old(view), from, n)
    {
      forall i | 0 <= i < n {
        data[i] := data[from + i];
      }
      assert data[..] == view.data[from..from + n] + view.data[n..];
      size := n;
      view := MovedDown(view, from, n);
    }

    /** memchr over the valid bytes, and the scan for the packet's head. */
    method Find(b: byte) returns (i: nat)
      requires Shape()
      ensures i == IndexOf(Contents(view), b)
    {
      i := 0;
      while i < size && data[i] != b
        invariant 0 <= i <= size && b !in data[..i]
      {
        i := i + 1;
      }
      assert Contents(view)[..i] == data[..i];
      if i < size {
        IndexOfIs(Contents(view), b, i);
      }
    }

    /** `pktbuf_clear`. */
    method Clear()
      requires Shape()
      modifies this`size, this`endPos, this`view
      ensures Shape() && size == 0 && endPos == -1 && view == old(view).(size := 0)
    {
      endPos, size, view := -1, 0, view.(size := 0);
    }

    /** The first half of `pktbuf_is_complete`: moves the first '$' to the front. */
    method SkipToHead() returns (found: bool)
      requires Valid()
      modifies this`size, this`endPos, this`view, data
      ensures Valid() && view == Skipped(old(view))
      ensures found <==> size > 0
      ensures endPos == if found then old(endPos) else -1
    {
      var head;
      ghost var front;
      head, front := FindHead();
      found := head < size;
      DropFirst(head, front);
    }

    /** The scan for '$', and what it means for the move. */
    method FindHead() returns (head: nat, ghost front: Buffer)
      requires Valid()
      ensures head <= size && front == Skipped(view) == SkippedTo(view, head)
      ensures front.size > 0 <==> head < size
      ensures EndOf(rule, if head == size then -1 else endPos, Contents(front))
    {
      head := Find(DOLLAR);
      front := Skipped(view);
      SkippedFound(rule, endPos, view, head);
    }

    /** Clears the buffer when there is no '$', and otherwise moves what the first one starts. */
    method DropFirst(head: nat, ghost front: Buffer)
      requires Shape() && head <= size && front == SkippedTo(view, head)
      modifies this`size, this`endPos, this`view, data
      ensures Shape() && view == front
      ensures endPos == if head < old(size) then old(endPos) else -1
    {
      if head == size {
        Clear();
      } else if head > 0 {
        MoveDown(head, size - head);
      } else {
        StaysInFront(view);
      }
    }

    /** `pktbuf_is_complete`. */
    method IsComplete() returns (complete: bool)
      requires Valid()
      modifies this`size, this`endPos, this`view, data
      ensures Valid() && view == Skipped(old(view))
      ensures complete == Complete(rule, Contents(view))
      ensures endPos == if complete then FrameLength(Contents(view)) - 1 else -1
    {
      var found := SkipToHead();
      complete := false;
      if found {
        complete := FindEnd();
      }
    }

    /** The second half: memchr for '#', then the end test. */
    method FindEnd() returns (complete: bool)
      requires Valid() && size > 0 && Contents(view)[0] == DOLLAR
      modifies this`endPos
      ensures Valid()
      ensures complete == Complete(rule, Contents(view))
      ensures endPos == if complete then FrameLength(Contents(view)) - 1 else -1
    {
      var hash := Find(HASH);
      if hash == size {
        return false;
      }
      var end := hash + CSUM_SIZE;
      if (if rule == AsWritten then end > size else end >= size) {
        return false;
      }
      endPos := end;
      return true;
    }

    /**
     * `pktbuf_pop_packet`. `MemoryError` stands for undefined behaviour: the source then copies or
     * moves bytes outside the allocation.
     */
    method PopPacket() returns (r: PopResult)
      requires Valid()
      modifies this`size, this`endPos, this`view, data
      ensures r == NoPacket <==> old(endPos) == -1
      ensures r == NoPacket ==> Valid() && view == old(view)
      ensures old(endPos) != -1 ==>
        match Popped(rule, old(view))
        case None => r == MemoryError
        case Some((frame, rest)) => r == PacketTaken(PacketOf(frame)) && Valid() && view == rest && endPos == -1
    {
      if endPos == -1 {
        return NoPacket;
      }
      var oldSize := endPos + 1;
      if oldSize > size {
        return MemoryError;
      }
      r := PacketTaken(Packet(endPos, data[..oldSize] + [0]));
      assert data[..oldSize] == view.data[..oldSize];
      var ok := RemoveFront(oldSize);
      if !ok {
        r := MemoryError;
      }
    }

    /** The second half of `pktbuf_pop_packet`: moves the remaining bytes to the front. */
    method RemoveFront(oldSize: nat) returns (ok: bool)
      requires Shape() && oldSize <= size
      modifies this`size, this`endPos, this`view, data
      ensures ok <==> !(rule == AsWritten && oldSize < old(size) == data.Length)
      ensures ok ==> Shape() && endPos == -1
      ensures ok ==> view == if oldSize == old(size) then old(view).(size := 0)
                             else MovedDown(old(view), if rule == AsWritten then oldSize + 1 else oldSize,
                                            old(size) - oldSize)
    {
      var source := if rule == AsWritten then oldSize + 1 else oldSize;
      var n := size - oldSize;
      if n > 0 && source + n > data.Length {
        return false;
      }
      if n > 0 {
        MoveDown(source, n);
      }
      size, endPos, view := n, -1, view.(size := n);
      return true;
    }
  }

  /** `calloc(1, 1024)`, nothing received. */
  function Zeroed(): (b: Buffer)
    ensures Sound(b) && b.size == 0 && |b.data| == 1024 && forall i :: 0 <= i < 1024 ==> b.data[i] == 0
  {
    Buffer(seq(1024, i => 0 as byte), 0)
  }

  function Min(a: nat, b: nat): nat
  {
    if a < b then a else b
  }

  lemma KeepsEnd(rule: PopRule, endPos: int, s: seq<byte>, t: seq<byte>, all: seq<byte>)
    requires EndOf(rule, endPos, s) && all == s + t
    ensures EndOf(rule, endPos, all)
  {
    IndexOfAppend(s, t, HASH);
  }

  lemma SkippedFound(rule: PopRule, endPos: int, b: Buffer, h: nat)
    requires Sound(b) && h == IndexOf(Contents(b), DOLLAR) && EndOf(rule, endPos, Contents(b))
    ensures Skipped(b) == SkippedTo(b, h) && (Skipped(b).size > 0 <==> h < b.size)
    ensures EndOf(rule, if h == b.size then -1 else endPos, Contents(Skipped(b)))
  {
    if h == 0 && b.size > 0 { StaysInFront(b); }
  }

  lemma StaysInFront(b: Buffer)
    requires Sound(b) && b.size > 0
    ensures SkippedTo(b, 0) == b
  {
    assert b.data[..b.size] + b.data[b.size..] == b.data;
  }

  lemma SamePrefix(b: Buffer, data: seq<byte>)
    requires b.size == |b.data| <= |data| && data[..b.size] == b.data
    ensures Contents(Buffer(data, b.size)) == Contents(b)
  {
  }

  /** Enlarging a full array and storing the bytes read is what the specification calls a read. */
  lemma FilledAs(was: Buffer, now: Buffer, grown: Buffer, c: seq<byte>, behind: seq<byte>)
    requires Sound(was) && Sound(now) && now.size == was.size && Contents(now) == Contents(was)
    requires if was.size < |was.data| then now == was else |now.data| > was.size
    requires now.size + |c| <= |now.data|
    requires grown == Buffer(now.data[..now.size] + c + now.data[now.size + |c|..], now.size + |c|)
    requires behind == grown.data[grown.size..]
    ensures grown == Filled(was, Read(c, behind))
  {
  }

  /**
   * The inner loop of `socket_reader`: take packets while there are complete ones. It is the loop of
   * the specification, on the array as it is; `ok` is false when a pop was undefined.
   */
  method TakeAll(buf: PacketBuffer) returns (ok: bool, packets: seq<Packet>, ghost frames: seq<seq<byte>>)
    requires buf.Valid()
    modifies buf`size, buf`endPos, buf`view, buf.data
    ensures packets == PacketsOf(frames)
    ensures if ok then buf.Valid() && buf.endPos == -1 && Drain(buf.rule, old(buf.view)) == Emptied(frames, buf.view)
            else Drain(buf.rule, old(buf.view)) == Gone
  {
    ghost var all, cur := Drain(buf.rule, buf.view), buf.view;
    packets, frames := [], [];
    NothingTaken(all, buf.rule, cur);
    var complete := buf.IsComplete();
    while complete
      invariant buf.Valid() && Taking(all, buf.rule, frames, cur) && buf.view == Skipped(cur)
      invariant complete == Complete(buf.rule, Contents(buf.view))
      invariant buf.endPos == if complete then FrameLength(Contents(buf.view)) - 1 else -1
      invariant packets == PacketsOf(frames)
      decreases cur.size, complete
    {
      ghost var was := cur;
      ok, packets, frames, cur := TakeNext(buf, packets, frames, all, was);
      if !ok {
        return;
      }
      complete := buf.IsComplete();
    }
    TakenAll(all, buf.rule, frames, cur, buf.view);
    ok := true;
  }

  /** One round of that loop. */
  method TakeNext(buf: PacketBuffer, packets: seq<Packet>, ghost frames: seq<seq<byte>>, ghost all: Outcome,
                  ghost cur: Buffer)
    returns (ok: bool, packets': seq<Packet>, ghost frames': seq<seq<byte>>, ghost rest: Buffer)
    requires buf.Valid() && buf.endPos != -1 && packets == PacketsOf(frames)
    requires Taking(all, buf.rule, frames, cur) && buf.view == Skipped(cur)
    modifies buf`size, buf`endPos, buf`view, buf.data
    ensures packets' == PacketsOf(frames')
    ensures if ok then buf.Valid() && buf.view == rest && rest.size < cur.size && Taking(all, buf.rule, frames', rest)
            else all == Gone
  {
    ghost var s, frame := buf.view, [];
    var packet;
    ok, packet, frame, rest := TakeOne(buf);
    packets', frames' := packets, frames;
    TakenNext(all, buf.rule, frames, cur, s, ok, frame, rest);
    if ok {
      PacketsSnoc(packets, frames, packet, frame);
      packets', frames' := packets + [packet], frames + [frame];
    }
  }

  lemma TakenNext(all: Outcome, rule: PopRule, frames: seq<seq<byte>>, cur: Buffer, s: Buffer, ok: bool,
                  frame: seq<byte>, rest: Buffer)
    requires Taking(all, rule, frames, cur) && s == Skipped(cur) && Complete(rule, Contents(s))
    requires Popped(rule, s) == if ok then Some((frame, rest)) else None
    ensures if ok then Taking(all, rule, frames + [frame], rest) && rest.size < cur.size else all == Gone
  {
    if ok {
      TakenStep(all, rule, frames, cur, s, frame, rest);
    } else {
      TakenGone(all, rule, frames, cur, s);
    }
  }

  /** One pop, in the terms of the specification. */
  method TakeOne(buf: PacketBuffer) returns (ok: bool, packet: Packet, ghost frame: seq<byte>, ghost rest: Buffer)
    requires buf.Valid() && buf.endPos != -1
    modifies buf`size, buf`endPos, buf`view, buf.data
    ensures Popped(buf.rule, old(buf.view)) == if ok then Some((frame, rest)) else None
    ensures ok ==> buf.Valid() && buf.view == rest && buf.endPos == -1 && packet == PacketOf(frame)
  {
    ghost var r := Popped(buf.rule, buf.view);
    var p := buf.PopPacket();
    ok := p != MemoryError;
    packet := if ok then p.packet else Packet(-1, []);
    frame, rest := if r.Some? then r.value.0 else [], if r.Some? then r.value.1 else buf.view;
  }

  /** `frames` have been taken, and the loop goes on from `cur`; `all` is what it does from the start. */
  ghost predicate Taking(all: Outcome, rule: PopRule, frames: seq<seq<byte>>, cur: Buffer)
  {
    Sound(cur) && all == Preceded(frames, Drain(rule, cur))
  }

  lemma NothingTaken(all: Outcome, rule: PopRule, cur: Buffer)
    requires Sound(cur) && all == Drain(rule, cur)
    ensures Taking(all, rule, [], cur)
  {
    if all.Emptied? { assert [] + all.frames == all.frames; }
  }

  lemma TakenAll(all: Outcome, rule: PopRule, frames: seq<seq<byte>>, cur: Buffer, s: Buffer)
    requires Taking(all, rule, frames, cur) && s == Skipped(cur) && !Complete(rule, Contents(s))
    ensures all == Emptied(frames, s)
  {
    DrainEnds(rule, cur, s);
    assert frames + [] == frames;
  }

  lemma TakenGone(all: Outcome, rule: PopRule, frames: seq<seq<byte>>, cur: Buffer, s: Buffer)
    requires Taking(all, rule, frames, cur) && s == Skipped(cur) && Complete(rule, Contents(s))
    requires Popped(rule, s) == None
    ensures all == Gone
  {
    DrainGone(rule, cur, s);
  }

  lemma TakenStep(all: Outcome, rule: PopRule, frames: seq<seq<byte>>, cur: Buffer, s: Buffer, frame: seq<byte>,
                  rest: Buffer)
    requires Taking(all, rule, frames, cur) && s == Skipped(cur) && Complete(rule, Contents(s))
    requires Popped(rule, s) == Some((frame, rest))
    ensures Taking(all, rule, frames + [frame], rest) && rest.size < cur.size
  {
    DrainPops(rule, cur, s, frame, rest);
    PopShrinks(rule, cur, s, frame, rest);
    PrecededTwice(frames, [frame], Drain(rule, rest));
  }

  /**
   * The receiving half of `socket_reader`, from the zeroed array to the end of the stream, however the
   * kernel splits the stream into reads: packets and array are those of the specification. They are the
   * grammar's when the framer is right at every read.
   */
  method ReadStream(rule: PopRule, stream: seq<byte>, kernel: nat -> nat)
    returns (buf: PacketBuffer, ok: bool, packets: seq<Packet>, ghost frames: seq<seq<byte>>, ghost rs: seq<Read>)
    ensures packets == PacketsOf(frames)
    ensures ok ==> Concat(Chunks(rs)) == stream && buf.Valid()
    ensures After(rule, Zeroed(), rs) == if ok then Emptied(frames, buf.view) else Gone
    ensures rule == Corrected || ReadsRight([], Chunks(rs)) ==>
              ok && frames == Frames(stream) && Contents(buf.view) == Tail(stream)
  {
    buf := new PacketBuffer(rule);
    packets, frames, rs := [], [], [];
    var rest := stream;
    ok := true;
    while rest != []
      invariant fresh(buf) && fresh(buf.data) && buf.rule == rule && buf.Valid()
      invariant stream == Concat(Chunks(rs)) + rest
      invariant packets == PacketsOf(frames)
      invariant After(rule, Zeroed(), rs) == Emptied(frames, buf.view)
      decreases |rest|
    {
      ghost var was, rd, more := buf.view, Read([], []), [];
      var taken;
      ok, rest, taken, rd, more := ReadOnce(buf, rest, kernel(|rest|));
      AfterSnoc(rule, Zeroed(), rs, rd);
      StreamStep(stream, rs, rd, rest);
      rs := rs + [rd];
      if !ok {
        NotRight(rule, rs);
        return;
      }
      PacketsOfAppend(frames, more);
      packets, frames := packets + taken, frames + more;
    }
    assert Concat(Chunks(rs)) + [] == Concat(Chunks(rs));
    StreamRight(rule, rs, frames, buf.view);
  }

  lemma StreamStep(stream: seq<byte>, rs: seq<Read>, rd: Read, rest: seq<byte>)
    requires stream == Concat(Chunks(rs)) + (rd.c + rest)
    ensures stream == Concat(Chunks(rs + [rd])) + rest
  {
    ChunksSnoc(rs, rd);
    ConcatSnoc(Chunks(rs), rd.c);
    Reassociate(Concat(Chunks(rs)), rd.c, rest);
  }

  lemma {:induction false} ChunksSnoc(rs: seq<Read>, rd: Read)
    ensures Chunks(rs + [rd]) == Chunks(rs) + [rd.c]
  {
    if rs != [] {
      assert (rs + [rd])[1..] == rs[1..] + [rd];
      ChunksSnoc(rs[1..], rd);
    }
  }

  /** When the framer is right at every read, all reads together give the packets of the whole stream. */
  lemma StreamRight(rule: PopRule, rs: seq<Read>, frames: seq<seq<byte>>, b: Buffer)
    requires After(rule, Zeroed(), rs) == Emptied(frames, b)
    ensures Sound(b)
    ensures rule == Corrected || ReadsRight([], Chunks(rs)) ==>
              frames == Frames(Concat(Chunks(rs))) && Contents(b) == Tail(Concat(Chunks(rs)))
  {
    if rule == Corrected || ReadsRight([], Chunks(rs)) {
      AfterRight(rule, rs);
      WholeStream(Chunks(rs));
    }
  }

  lemma NotRight(rule: PopRule, rs: seq<Read>)
    requires After(rule, Zeroed(), rs) == Gone
    ensures rule == AsWritten && !ReadsRight([], Chunks(rs))
  {
    if rule == Corrected || ReadsRight([], Chunks(rs)) {
      AfterRight(rule, rs);
    }
  }

  lemma AfterRight(rule: PopRule, rs: seq<Read>)
    requires rule == Corrected || ReadsRight([], Chunks(rs))
    ensures var o, r := After(rule, Zeroed(), rs), Expected([], Chunks(rs));
      o.Emptied? && o.frames == Delivered(r) && Contents(o.b) == Left([], r)
  {
    assert Contents(Zeroed()) == [];
    if rule == Corrected {
      CorrectedReceives(Zeroed(), rs);
    } else {
      AsWrittenReceives(Zeroed(), rs);
    }
    AfterExpected(rule, Zeroed(), rs);
  }

  /** One round of `socket_reader`: a read that brings `rd.c`, then the inner loop. */
  method ReadOnce(buf: PacketBuffer, avail: seq<byte>, kernel: nat)
    returns (ok: bool, rest: seq<byte>, taken: seq<Packet>, ghost rd: Read, ghost frames: seq<seq<byte>>)
    requires buf.Valid() && avail != []
    modifies buf, buf.data
    ensures avail == rd.c + rest && rd.c != [] && (buf.data == old(buf.data) || fresh(buf.data))
    ensures taken == PacketsOf(frames) && (ok ==> buf.Valid())
    ensures Drain(buf.rule, Filled(old(buf.view), rd)) == if ok then Emptied(frames, buf.view) else Gone
  {
    var nread;
    ghost var behind;
    nread, behind := buf.Fill(avail, kernel);
    rd, rest := Read(avail[..nread], behind), avail[nread..];
    assert avail == rd.c + rest;
    ok, taken, frames := TakeAll(buf);
  }

  lemma PacketsSnoc(packets: seq<Packet>, frames: seq<seq<byte>>, packet: Packet, frame: seq<byte>)
    requires packets == PacketsOf(frames) && packet == PacketOf(frame)
    ensures packets + [packet] == PacketsOf(frames + [frame])
  {
    PacketsOfAppend(frames, [frame]);
    assert PacketsOf([frame]) == [packet];
  }

  lemma PacketsOfAppend(a: seq<seq<byte>>, b: seq<seq<byte>>)
    ensures PacketsOf(a + b) == PacketsOf(a) + PacketsOf(b)
  {
  }
}
