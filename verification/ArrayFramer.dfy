/**
 * The framer of src/packet.c on its array: every memmove moves bytes of the array itself, so what lies
 * behind the valid bytes is mostly stale bytes of the buffer.
 */
module ArrayFramer {
  import opened Bytes
  import opened Framing

  /** The array, and how many of its bytes are valid. */
  datatype Buffer = Buffer(data: seq<byte>, size: nat)

  predicate Sound(b: Buffer)
  {
    b.size <= |b.data|
  }

  function Contents(b: Buffer): seq<byte>
    requires Sound(b)
  {
    b.data[..b.size]
  }

  /** The byte behind the valid ones, if the allocation goes on. */
  function Past(b: Buffer): Option<byte>
  {
    if b.size < |b.data| then Some(b.data[b.size]) else None
  }

  /** memmove(data, data + from, n), after which `n` bytes are valid. */
  function MovedDown(b: Buffer, from: nat, n: nat): (r: Buffer)
    requires from + n <= |b.data|
    ensures Sound(r) && r.size == n && |r.data| == |b.data|
  {
    Buffer(b.data[from..from + n] + b.data[n..], n)
  }

  /** The first half of `pktbuf_is_complete`: the first '$' to the front, or nothing left. */
  function Skipped(b: Buffer): (r: Buffer)
    requires Sound(b)
    ensures Sound(r) && |r.data| == |b.data| && Contents(r) == SkipToDollar(Contents(b))
  {
    SkippedTo(b, IndexOf(Contents(b), DOLLAR))
  }

  function SkippedTo(b: Buffer, h: nat): (r: Buffer)
    requires h <= b.size <= |b.data|
    ensures Sound(r) && |r.data| == |b.data|
  {
    if h == b.size then b.(size := 0) else MovedDown(b, h, b.size - h)
  }

  /** `pktbuf_pop_packet`: the packet and the array, or `None` when the source leaves the allocation. */
  function Popped(rule: PopRule, b: Buffer): (r: Option<(seq<byte>, Buffer)>)
    requires Sound(b) && Complete(rule, Contents(b))
    ensures r.Some? ==> Sound(r.value.1) && |r.value.1.data| == |b.data|
    ensures r.Some? ==> r.value.1.size + FrameLength(Contents(b)) == b.size
  {
    var length := FrameLength(Contents(b));
    if length > b.size then None
    else
      var n := b.size - length;
      var from := if rule == AsWritten then length + 1 else length;
      if n == 0 then Some((b.data[..length], b.(size := 0)))
      else if from + n > |b.data| then None
      else Some((b.data[..length], MovedDown(b, from, n)))
  }

  /** `Gone`: the source has left the allocation. */
  datatype Outcome = Gone | Emptied(frames: seq<seq<byte>>, b: Buffer)

  function Preceded(frames: seq<seq<byte>>, o: Outcome): Outcome
  {
    if o == Gone then Gone else Emptied(frames + o.frames, o.b)
  }

  /** `while (pktbuf_is_complete) pktbuf_pop_packet`: every pop takes at least four bytes off the valid ones. */
  function Drain(rule: PopRule, b: Buffer): (o: Outcome)
    requires Sound(b)
    ensures o.Emptied? ==> Sound(o.b) && |o.b.data| == |b.data|
    decreases b.size
  {
    var s := Skipped(b);
    if !Complete(rule, Contents(s)) then Emptied([], s)
    else
      match Popped(rule, s)
      case None => Gone
      case Some((frame, rest)) => Preceded([frame], Drain(rule, rest))
  }

  lemma DrainEnds(rule: PopRule, b: Buffer, s: Buffer)
    requires Sound(b) && s == Skipped(b) && !Complete(rule, Contents(s))
    ensures Drain(rule, b) == Emptied([], s)
  {
  }

  lemma DrainGone(rule: PopRule, b: Buffer, s: Buffer)
    requires Sound(b) && s == Skipped(b) && Complete(rule, Contents(s)) && Popped(rule, s) == None
    ensures Drain(rule, b) == Gone
  {
  }

  lemma DrainPops(rule: PopRule, b: Buffer, s: Buffer, frame: seq<byte>, rest: Buffer)
    requires Sound(b) && s == Skipped(b) && Complete(rule, Contents(s)) && Popped(rule, s) == Some((frame, rest))
    ensures Drain(rule, b) == Preceded([frame], Drain(rule, rest))
  {
  }

  lemma PopShrinks(rule: PopRule, b: Buffer, s: Buffer, frame: seq<byte>, rest: Buffer)
    requires Sound(b) && s == Skipped(b) && Complete(rule, Contents(s)) && Popped(rule, s) == Some((frame, rest))
    ensures Sound(rest) && rest.size < b.size
  {
  }

  // ---------------------------------------------------------------- what of the memory behind matters

  /** The byte behind a buffer once the first '$' is in front: a byte of the buffer itself, if it had to be moved. */
  function PastSkip(v: seq<byte>, past: Option<byte>): Option<byte>
  {
    var t := SkipToDollar(v);
    if |t| == |v| then past else Some(v[|t|])
  }

  /**
   * The same loop on the valid bytes and the one behind them: after a skip that moves anything, and after
   * every pop, the byte behind is one of the buffer's own.
   */
  function DrainStale(rule: PopRule, v: seq<byte>, past: Option<byte>): Drained
    decreases |v|
  {
    var t := SkipToDollar(v);
    if !Complete(rule, t) then Drained([], t)
    else
      match Take(rule, t, PastSkip(v, past))
      case Undefined => Lost
      case Took(frame, rest) => Prefixed(frame, DrainStale(rule, rest, Some(t[|rest|])))
  }

  lemma DrainStaleStep(rule: PopRule, v: seq<byte>, past: Option<byte>, t: seq<byte>)
    requires t == SkipToDollar(v)
    ensures DrainStale(rule, v, past) ==
      if !Complete(rule, t) then Drained([], t)
      else
        var r := Take(rule, t, PastSkip(v, past));
        if r == Undefined then Lost else Prefixed(r.frame, DrainStale(rule, r.rest, Some(t[|r.rest|])))
  {
  }

  lemma DrainStaleTook(rule: PopRule, v: seq<byte>, past: Option<byte>, t: seq<byte>, frame: seq<byte>,
                       rest: seq<byte>, stale: byte)
    requires t == SkipToDollar(v) && Complete(rule, t) && Take(rule, t, PastSkip(v, past)) == Took(frame, rest)
    requires |rest| < |t| && stale == t[|rest|]
    ensures DrainStale(rule, v, past) == Prefixed(frame, DrainStale(rule, rest, Some(stale)))
  {
    DrainStaleStep(rule, v, past, t);
  }

  lemma PastSkipped(b: Buffer)
    requires Sound(b)
    ensures Contents(Skipped(b)) != [] ==> Past(Skipped(b)) == PastSkip(Contents(b), Past(b))
  {
    var h := IndexOf(Contents(b), DOLLAR);
    if h < b.size && h > 0 {
      var s := Skipped(b);
      assert s.data[s.size] == b.data[s.size] == Contents(b)[s.size];
    }
  }

  lemma PoppedTakes(rule: PopRule, s: Buffer)
    requires Sound(s) && Complete(rule, Contents(s))
    ensures match Popped(rule, s)
      case None => Take(rule, Contents(s), Past(s)) == Undefined
      case Some((frame, rest)) =>
        Take(rule, Contents(s), Past(s)) == Took(frame, Contents(rest)) && Past(rest) == Some(Contents(s)[rest.size])
  {
    var t, length := Contents(s), FrameLength(Contents(s));
    if length <= s.size {
      var n := s.size - length;
      assert t[..length] == s.data[..length];
      match Popped(rule, s)
      case None =>
      case Some((frame, rest)) =>
        if n > 0 {
          assert rest.data[n] == s.data[n] == t[n];
          PoppedRest(rule, s, rest, length, n);
        }
    }
  }

  lemma PoppedRest(rule: PopRule, s: Buffer, rest: Buffer, length: nat, n: nat)
    requires Sound(s) && 0 < n && length + n == s.size
    requires if rule == AsWritten then s.size < |s.data| && rest == MovedDown(s, length + 1, n)
             else rest == MovedDown(s, length, n)
    ensures Contents(rest) ==
      if rule == AsWritten then Contents(s)[length..][1..] + [s.data[s.size]] else Contents(s)[length..]
  {
  }

  predicate Refines(o: Outcome, d: Drained)
    requires o.Emptied? ==> Sound(o.b)
  {
    d == if o == Gone then Lost else Drained(o.frames, Contents(o.b))
  }

  lemma FirstRefines(frame: seq<byte>, o: Outcome, d: Drained)
    requires (o.Emptied? ==> Sound(o.b)) && Refines(o, d)
    ensures Preceded([frame], o).Emptied? ==> Sound(Preceded([frame], o).b)
    ensures Refines(Preceded([frame], o), Prefixed(frame, d))
  {
  }

  lemma RefinesPop(rule: PopRule, v: seq<byte>, past: Option<byte>, s: Buffer, frame: seq<byte>, rest: Buffer)
    requires Sound(s) && Contents(s) == SkipToDollar(v) && Complete(rule, Contents(s)) && Past(s) == PastSkip(v, past)
    requires Popped(rule, s) == Some((frame, rest))
    ensures DrainStale(rule, v, past) == Prefixed(frame, DrainStale(rule, Contents(rest), Past(rest)))
  {
    PoppedTakes(rule, s);
    DrainStaleStep(rule, v, past, Contents(s));
  }

  lemma RefinesGone(rule: PopRule, v: seq<byte>, past: Option<byte>, s: Buffer)
    requires Sound(s) && Contents(s) == SkipToDollar(v) && Complete(rule, Contents(s)) && Past(s) == PastSkip(v, past)
    requires Popped(rule, s) == None
    ensures DrainStale(rule, v, past) == Lost
  {
    PoppedTakes(rule, s);
    DrainStaleStep(rule, v, past, Contents(s));
  }

  /** The loop on the array delivers and leaves what the loop on the valid bytes and the one behind them does. */
  lemma {:induction false} DrainRefines(rule: PopRule, b: Buffer)
    requires Sound(b)
    ensures Refines(Drain(rule, b), DrainStale(rule, Contents(b), Past(b)))
    decreases b.size
  {
    var s := Skipped(b);
    PastSkipped(b);
    if Complete(rule, Contents(s)) {
      match Popped(rule, s)
      case None => RefinesGone(rule, Contents(b), Past(b), s);
      case Some((frame, rest)) =>
        RefinesPop(rule, Contents(b), Past(b), s, frame, rest);
        DrainRefines(rule, rest);
        FirstRefines(frame, Drain(rule, rest), DrainStale(rule, Contents(rest), Past(rest)));
    } else {
      DrainStaleStep(rule, Contents(b), Past(b), Contents(s));
    }
  }

  /** Of two arrays with the same valid bytes, the loop delivers and leaves the same. */
  predicate Alike(x: Outcome, y: Outcome)
    requires (x.Emptied? ==> Sound(x.b)) && (y.Emptied? ==> Sound(y.b))
  {
    if x == Gone then y == Gone else y.Emptied? && x.frames == y.frames && Contents(x.b) == Contents(y.b)
  }

  /**
   * The memory behind the valid bytes matters through its first byte alone, and only if the buffer
   * starts with its '$'.
   */
  lemma MemoryMatters(rule: PopRule, b: Buffer, c: Buffer)
    requires Sound(b) && Sound(c) && Contents(b) == Contents(c)
    requires Contents(b) != [] && Contents(b)[0] == DOLLAR ==> Past(b) == Past(c)
    ensures Alike(Drain(rule, b), Drain(rule, c))
  {
    DrainRefines(rule, b);
    DrainRefines(rule, c);
    OnlyIfDollar(rule, Contents(b), Past(b), Past(c));
  }

  lemma OnlyIfDollar(rule: PopRule, v: seq<byte>, p: Option<byte>, q: Option<byte>)
    requires v != [] && v[0] == DOLLAR ==> p == q
    ensures DrainStale(rule, v, p) == DrainStale(rule, v, q)
  {
    var t := SkipToDollar(v);
    if |t| == |v| && t != [] { assert t == v; }
  }

  // ---------------------------------------------------------------- when it meets the grammar

  /** The loop delivers the packets of the buffer and leaves its unfinished tail. */
  predicate DrainsRight(rule: PopRule, b: Buffer)
    requires Sound(b)
  {
    var o := Drain(rule, b);
    o.Emptied? && o.frames == Frames(Contents(b)) && Contents(o.b) == Tail(Contents(b))
  }

  predicate StaleRight(rule: PopRule, v: seq<byte>, past: Option<byte>)
  {
    DrainStale(rule, v, past) == Drained(Frames(v), Tail(v))
  }

  lemma RightRefines(rule: PopRule, b: Buffer)
    requires Sound(b)
    ensures DrainsRight(rule, b) <==> StaleRight(rule, Contents(b), Past(b))
  {
    DrainRefines(rule, b);
  }

  /** The corrected loop always does. */
  lemma CorrectedRight(b: Buffer)
    requires Sound(b)
    ensures DrainsRight(Corrected, b)
  {
    RightRefines(Corrected, b);
    CorrectedStale(Contents(b), Past(b));
  }

  lemma {:induction false} CorrectedStale(v: seq<byte>, past: Option<byte>)
    ensures StaleRight(Corrected, v, past)
    decreases |v|
  {
    var t := SkipToDollar(v);
    DrainStaleStep(Corrected, v, past, t);
    if Complete(Corrected, t) {
      var n := FrameLength(t);
      GrammarStep(v, t, n);
      CorrectedStale(t[n..], Some(t[|t| - n]));
    }
  }

  /** The loop as written does when the first packet is all there is from its '$' on. */
  lemma EndsRight(b: Buffer)
    requires Sound(b) && EndsWithPacket(Contents(b))
    ensures DrainsRight(AsWritten, b)
  {
    RightRefines(AsWritten, b);
    EndsStale(Contents(b), Past(b));
  }

  lemma EndsStale(v: seq<byte>, past: Option<byte>)
    requires EndsWithPacket(v)
    ensures StaleRight(AsWritten, v, past)
  {
    var t := SkipToDollar(v);
    DrainStaleStep(AsWritten, v, past, t);
    if Complete(AsWritten, t) {
      GrammarStep(v, t, |t|);
      assert t[|t|..] == [];
      NothingStale(Some(t[0]));
    }
  }

  lemma NothingStale(past: Option<byte>)
    ensures DrainStale(AsWritten, [], past) == Drained([], []) && Frames([]) == [] && Tail([]) == []
  {
    assert SkipToDollar([]) == [];
  }

  // ---------------------------------------------------------------- reads

  /** A read that brings `c`; a full array is enlarged for it, and `behind` is then what lies behind. */
  datatype Read = Read(c: seq<byte>, behind: seq<byte>)

  /** `pktbuf_fill_from_file` */
  function Filled(b: Buffer, rd: Read): (r: Buffer)
    requires Sound(b)
    ensures Sound(r) && Contents(r) == Contents(b) + rd.c
  {
    var size := b.size + |rd.c|;
    if b.size < |b.data| && size <= |b.data| then Buffer(b.data[..b.size] + rd.c + b.data[size..], size)
    else Buffer(Contents(b) + rd.c + rd.behind, size)
  }

  function Chunks(rs: seq<Read>): (chunks: seq<seq<byte>>)
    ensures |chunks| == |rs|
  {
    if rs == [] then [] else [rs[0].c] + Chunks(rs[1..])
  }

  /** What each read makes the reader deliver and leave; a buffer that is gone ends the run. */
  function Receive(rule: PopRule, b: Buffer, rs: seq<Read>): (r: seq<Drained>)
    requires Sound(b)
    ensures |r| <= |rs|
    decreases |rs|
  {
    if rs == [] then []
    else
      match Drain(rule, Filled(b, rs[0]))
      case Gone => [Lost]
      case Emptied(frames, rest) => [Drained(frames, Contents(rest))] + Receive(rule, rest, rs[1..])
  }

  /** The corrected framer does what the grammar says at every read, for every split and every memory. */
  lemma {:induction false} CorrectedReceives(b: Buffer, rs: seq<Read>)
    requires Sound(b)
    ensures Receive(Corrected, b, rs) == Expected(Contents(b), Chunks(rs))
    decreases |rs|
  {
    if rs != [] {
      var f := Filled(b, rs[0]);
      CorrectedRight(f);
      CorrectedReceives(Drain(Corrected, f).b, rs[1..]);
      ReceiveExact(Corrected, b, rs, f, Drain(Corrected, f), Contents(f));
    }
  }

  /** Chunking invariance of the framer, from an empty buffer over any memory. */
  lemma ChunkingInvariance(b: Buffer, rs: seq<Read>)
    requires Sound(b) && b.size == 0
    ensures var r := Receive(Corrected, b, rs);
      Delivered(r) == Frames(Concat(Chunks(rs))) && Left([], r) == Tail(Concat(Chunks(rs)))
  {
    CorrectedReceives(b, rs);
    WholeStream(Chunks(rs));
  }

  /** All packets that the reads bring, and the array they leave. */
  function After(rule: PopRule, b: Buffer, rs: seq<Read>): (o: Outcome)
    requires Sound(b)
    ensures o.Emptied? ==> Sound(o.b)
    decreases |rs|
  {
    if rs == [] then Emptied([], b)
    else
      match Drain(rule, Filled(b, rs[0]))
      case Gone => Gone
      case Emptied(frames, rest) => Preceded(frames, After(rule, rest, rs[1..]))
  }

  lemma {:induction false} AfterSnoc(rule: PopRule, b: Buffer, rs: seq<Read>, rd: Read)
    requires Sound(b)
    ensures After(rule, b, rs + [rd]) ==
      var o := After(rule, b, rs);
      if o == Gone then Gone else Preceded(o.frames, Drain(rule, Filled(o.b, rd)))
    decreases |rs|
  {
    var all := rs + [rd];
    if rs == [] {
      var d := Drain(rule, Filled(b, rd));
      assert all[1..] == [];
      if d.Emptied? { assert d.frames + [] == d.frames == [] + d.frames; }
    } else {
      assert all[0] == rs[0] && all[1..] == rs[1..] + [rd];
      match Drain(rule, Filled(b, rs[0]))
      case Gone =>
      case Emptied(frames, rest) =>
        AfterSnoc(rule, rest, rs[1..], rd);
        var o := After(rule, rest, rs[1..]);
        if o != Gone { PrecededTwice(frames, o.frames, Drain(rule, Filled(o.b, rd))); }
    }
  }

  lemma PrecededTwice(a: seq<seq<byte>>, c: seq<seq<byte>>, o: Outcome)
    ensures Preceded(a, Preceded(c, o)) == Preceded(a + c, o)
  {
    if o.Emptied? { Reassociate(a, c, o.frames); }
  }

  /** When every read does what the grammar says of it, the reads together do what it says of the whole. */
  lemma {:induction false} AfterExpected(rule: PopRule, b: Buffer, rs: seq<Read>)
    requires Sound(b) && Receive(rule, b, rs) == Expected(Contents(b), Chunks(rs))
    ensures var o, r := After(rule, b, rs), Expected(Contents(b), Chunks(rs));
      o.Emptied? && o.frames == Delivered(r) && Contents(o.b) == Left(Contents(b), r)
    decreases |rs|
  {
    if rs != [] {
      var f := Filled(b, rs[0]);
      var d, s := Drain(rule, f), Contents(f);
      if d == Gone { GoneWrong(rule, b, rs, f, s); }
      ReceiveExact(rule, b, rs, f, d, s);
      ExpectedFirst(Contents(b), rs, s);
      AfterExpected(rule, d.b, rs[1..]);
      DeliveredCons(Drained(Frames(s), Tail(s)), Expected(Tail(s), Chunks(rs[1..])), Contents(b));
    }
  }

  lemma Heads<T>(x: T, xs: seq<T>, y: T, ys: seq<T>)
    ensures [x] + xs == [y] + ys <==> x == y && xs == ys
  {
    if [x] + xs == [y] + ys {
      assert ([x] + xs)[0] == ([y] + ys)[0] && ([x] + xs)[1..] == xs && ([y] + ys)[1..] == ys;
    }
  }

  /** The reads meet the grammar if and only if the first does and the others do from what it leaves. */
  lemma ReceiveExact(rule: PopRule, b: Buffer, rs: seq<Read>, f: Buffer, o: Outcome, s: seq<byte>)
    requires Sound(b) && rs != [] && f == Filled(b, rs[0]) && o == Drain(rule, f) && o.Emptied? && s == Contents(f)
    ensures Receive(rule, b, rs) == Expected(Contents(b), Chunks(rs)) <==>
      o.frames == Frames(s) && Contents(o.b) == Tail(s)
      && Receive(rule, o.b, rs[1..]) == Expected(Tail(s), Chunks(rs[1..]))
  {
    ExpectedFirst(Contents(b), rs, s);
    FirstExact(rule, b, rs, f, o, Drained(Frames(s), Tail(s)), Expected(Tail(s), Chunks(rs[1..])),
               Expected(Contents(b), Chunks(rs)));
  }

  lemma GoneWrong(rule: PopRule, b: Buffer, rs: seq<Read>, f: Buffer, s: seq<byte>)
    requires Sound(b) && rs != [] && f == Filled(b, rs[0]) && Drain(rule, f) == Gone && s == Contents(f)
    ensures Receive(rule, b, rs) != Expected(Contents(b), Chunks(rs))
  {
    ExpectedFirst(Contents(b), rs, s);
    ReceiveGone(rule, b, rs, f);
    GoneDiffers(Drained(Frames(s), Tail(s)), Expected(Tail(s), Chunks(rs[1..])), Expected(Contents(b), Chunks(rs)));
  }

  lemma FirstExact(rule: PopRule, b: Buffer, rs: seq<Read>, f: Buffer, o: Outcome, d: Drained, y: seq<Drained>,
                   e: seq<Drained>)
    requires Sound(b) && rs != [] && f == Filled(b, rs[0]) && o == Drain(rule, f) && o.Emptied? && e == [d] + y
    ensures Receive(rule, b, rs) == e <==> Drained(o.frames, Contents(o.b)) == d && Receive(rule, o.b, rs[1..]) == y
  {
    ReceiveMore(rule, b, rs, f, o, rs[1..]);
    Heads(Drained(o.frames, Contents(o.b)), Receive(rule, o.b, rs[1..]), d, y);
  }

  lemma ReceiveGone(rule: PopRule, b: Buffer, rs: seq<Read>, f: Buffer)
    requires Sound(b) && rs != [] && f == Filled(b, rs[0]) && Drain(rule, f) == Gone
    ensures Receive(rule, b, rs) == [Lost]
  {
  }

  lemma ReceiveMore(rule: PopRule, b: Buffer, rs: seq<Read>, f: Buffer, o: Outcome, more: seq<Read>)
    requires Sound(b) && rs != [] && f == Filled(b, rs[0]) && o == Drain(rule, f) && o.Emptied? && more == rs[1..]
    ensures Receive(rule, b, rs) == [Drained(o.frames, Contents(o.b))] + Receive(rule, o.b, more)
  {
  }

  lemma GoneDiffers(d: Drained, y: seq<Drained>, e: seq<Drained>)
    requires d != Lost && e == [d] + y
    ensures [Lost] != e
  {
    assert e[0] != [Lost][0];
  }

  lemma ExpectedFirst(v: seq<byte>, rs: seq<Read>, s: seq<byte>)
    requires rs != [] && s == v + rs[0].c
    ensures Expected(v, Chunks(rs)) == [Drained(Frames(s), Tail(s))] + Expected(Tail(s), Chunks(rs[1..]))
  {
    assert Chunks(rs)[0] == rs[0].c && Chunks(rs)[1..] == Chunks(rs[1..]);
  }

  /** A buffer that the loop as written drains right whatever memory lies behind it. */
  ghost predicate AlwaysRight(v: seq<byte>)
  {
    forall past: Option<byte> :: StaleRight(AsWritten, v, past)
  }

  /** Every read leaves such a buffer. */
  ghost predicate ReadsRight(v: seq<byte>, chunks: seq<seq<byte>>)
    decreases |chunks|
  {
    chunks == [] || (AlwaysRight(v + chunks[0]) && ReadsRight(Tail(v + chunks[0]), chunks[1..]))
  }

  /** As written, the framer then does what the grammar says at every read. */
  lemma {:induction false} AsWrittenReceives(b: Buffer, rs: seq<Read>)
    requires Sound(b) && ReadsRight(Contents(b), Chunks(rs))
    ensures Receive(AsWritten, b, rs) == Expected(Contents(b), Chunks(rs))
    decreases |rs|
  {
    if rs != [] {
      var f := Filled(b, rs[0]);
      assert Chunks(rs)[1..] == Chunks(rs[1..]);
      assert StaleRight(AsWritten, Contents(f), Past(f));
      RightRefines(AsWritten, f);
      AsWrittenReceives(Drain(AsWritten, f).b, rs[1..]);
      ReceiveExact(AsWritten, b, rs, f, Drain(AsWritten, f), Contents(f));
    }
  }

  /** Lockstep reads are of this kind. */
  lemma {:induction false} LockstepReadsRight(v: seq<byte>, chunks: seq<seq<byte>>)
    requires Lockstep(v, chunks)
    ensures ReadsRight(v, chunks)
    decreases |chunks|
  {
    if chunks != [] {
      forall past: Option<byte> ensures StaleRight(AsWritten, v + chunks[0], past) {
        EndsStale(v + chunks[0], past);
      }
      LockstepReadsRight(Tail(v + chunks[0]), chunks[1..]);
    }
  }
}
