/**
 * When the framer of src/packet.c as written meets the grammar. `pktbuf_pop_packet` moves the bytes
 * behind a packet from one position too far: it drops the first of them and brings in the byte behind
 * the buffer, which after a skip or a pop is a stale byte of the buffer itself.
 */
module StaleMemory {
  import opened Bytes
  import opened Framing
  import opened ArrayFramer
  import opened Protocol

  // ---------------------------------------------------------------- packets that do not touch

  /** No packet is followed at once by another '$'. */
  predicate Spaced(s: seq<byte>)
    decreases |s|
  {
    var t := SkipToDollar(s);
    HasFrame(t) ==> var rest := t[FrameLength(t)..]; (rest == [] || rest[0] != DOLLAR) && Spaced(rest)
  }

  lemma SpacedStep(s: seq<byte>, t: seq<byte>, rest: seq<byte>)
    requires t == SkipToDollar(s) && HasFrame(t) && rest == t[FrameLength(t)..]
    ensures Spaced(s) <==> (rest == [] || rest[0] != DOLLAR) && Spaced(rest)
  {
  }

  /** A byte between packets makes no difference. */
  lemma GapByte(rest: seq<byte>)
    requires rest != [] && rest[0] != DOLLAR
    ensures Frames(rest) == Frames(rest[1..]) && Tail(rest) == Tail(rest[1..]) && Spaced(rest) == Spaced(rest[1..])
  {
    assert rest == [rest[0]] + rest[1..];
    SkipAppend([rest[0]], rest[1..]);
    SameStart(rest, rest[1..]);
  }

  lemma PrefixedEqual(frame: seq<byte>, d: Drained, fs: seq<seq<byte>>, tail: seq<byte>)
    ensures Prefixed(frame, d) == Drained([frame] + fs, tail) <==> d == Drained(fs, tail)
  {
    if d != Lost {
      assert ([frame] + d.frames)[1..] == d.frames && ([frame] + fs)[1..] == fs;
    }
  }

  /**
   * What is in the buffer behind the true bytes `u` when no packet of theirs is left, starting with `g`
   * behind them and `past` behind that: bytes brought in by the moves, less those dropped again.
   * `None` when a move leaves the allocation.
   */
  function Leftover(u: seq<byte>, g: seq<byte>, past: Option<byte>): Option<seq<byte>>
    decreases |u|
  {
    var t := SkipToDollar(u);
    if !HasFrame(t) then Some(g)
    else
      var rest := t[FrameLength(t)..];
      var q := BroughtIn(u, t, g, past);
      if rest == [] && g == [] then Some([])
      else if q == None then None
      else if rest == [] then Some(g[1..] + [q.value])
      else Leftover(rest[1..], g + [q.value], Some(LeftBehind(t, g)))
  }

  /**
   * The byte behind what is left of `t + g` when its packet has been popped: one of its own, as nothing
   * was moved there.
   */
  function LeftBehind(t: seq<byte>, g: seq<byte>): byte
    requires HasFrame(t)
  {
    (t + g)[|t + g| - FrameLength(t)]
  }

  /** The byte behind `t + g` when `t` has been moved to the front from behind a gap. */
  function BroughtIn(u: seq<byte>, t: seq<byte>, g: seq<byte>, past: Option<byte>): Option<byte>
    requires |t| <= |u|
  {
    if |t| == |u| then past else Some((u + g)[|t| + |g|])
  }

  /** Right when all of it was one packet at the end, or when nothing is left unfinished and no '$' was brought in. */
  predicate Harmless(u: seq<byte>, x: Option<seq<byte>>)
  {
    x.Some? && if x.value == [] then EndsWithPacket(u) else Tail(u) == [] && DOLLAR !in x.value
  }

  /** The drain of `u + g` gives what the grammar says of `u`. */
  predicate RightWith(u: seq<byte>, g: seq<byte>, past: Option<byte>)
  {
    DrainStale(AsWritten, u + g, past) == Drained(Frames(u), Tail(u))
  }

  // ---------------------------------------------------------------- no packet left

  lemma GapThenGarbage(u: seq<byte>, g: seq<byte>, past: Option<byte>)
    requires DOLLAR !in u
    ensures RightWith(u, g, past) <==> DOLLAR !in g
    ensures Frames(u) == [] && Tail(u) == [] && EndsWithPacket(u)
  {
    SkipAppend(u, g);
    assert SkipToDollar(u) == [];
    DrainStaleStep(AsWritten, u + g, past, SkipToDollar(g));
    if DOLLAR !in g { assert SkipToDollar(g) == []; }
  }

  /** An unfinished packet with bytes behind it is no longer what it was. */
  lemma UnfinishedThenGarbage(u: seq<byte>, t: seq<byte>, g: seq<byte>, past: Option<byte>)
    requires DOLLAR in u && t == SkipToDollar(u) && !HasFrame(t) && g != []
    ensures !RightWith(u, g, past)
  {
    SkipAppend(u, g);
    IndexOfAppend(t, g, HASH);
    DrainStaleStep(AsWritten, u + g, past, t + g);
    UnfinishedTail(t);
    SameStart(u, t);
    assert |t + g| > |t|;
  }

  lemma UnfinishedAlone(u: seq<byte>, t: seq<byte>, past: Option<byte>)
    requires t == SkipToDollar(u) && !HasFrame(t)
    ensures RightWith(u, [], past) <==> EndsWithPacket(u)
  {
    assert u + [] == u;
    DrainStaleStep(AsWritten, u, past, t);
    if t != [] { IndexOfIs(t, DOLLAR, 0); }
    UnfinishedTail(t);
    SameStart(u, t);
  }

  lemma SkipsTo(u: seq<byte>, t: seq<byte>)
    requires t == SkipToDollar(u) && !HasFrame(t)
    ensures Tail(u) == t && Frames(u) == [] && (t == [] <==> DOLLAR !in u)
  {
    if t != [] { IndexOfIs(t, DOLLAR, 0); }
    UnfinishedTail(t);
    SameStart(u, t);
  }

  lemma NoFrameExact(u: seq<byte>, t: seq<byte>, g: seq<byte>, past: Option<byte>)
    requires t == SkipToDollar(u) && !HasFrame(t)
    ensures RightWith(u, g, past) <==> Harmless(u, Some(g))
  {
    if g == [] {
      UnfinishedAlone(u, t, past);
    } else {
      GarbageExact(u, t, g, past);
    }
  }

  lemma GarbageExact(u: seq<byte>, t: seq<byte>, g: seq<byte>, past: Option<byte>)
    requires t == SkipToDollar(u) && !HasFrame(t) && g != []
    ensures RightWith(u, g, past) <==> Tail(u) == [] && DOLLAR !in g
  {
    SkipsTo(u, t);
    if DOLLAR !in u {
      GapThenGarbage(u, g, past);
    } else {
      UnfinishedThenGarbage(u, t, g, past);
    }
  }

  // ---------------------------------------------------------------- one pop

  lemma PopStarts(u: seq<byte>, t: seq<byte>, g: seq<byte>, length: nat)
    requires t == SkipToDollar(u) && HasFrame(t) && length == FrameLength(t)
    ensures SkipToDollar(u + g) == t + g && HasFrame(t + g)
    ensures FrameLength(t + g) == length && (t + g)[..length] == t[..length] && (t + g)[length..] == t[length..] + g
  {
    SkipAppend(u, g);
    FrameStays(t, g);
  }

  lemma PopBrings(u: seq<byte>, t: seq<byte>, g: seq<byte>, past: Option<byte>)
    requires t == SkipToDollar(u) && SkipToDollar(u + g) == t + g
    ensures PastSkip(u + g, past) == BroughtIn(u, t, g, past)
  {
    assert |t + g| == |t| + |g| && |u + g| == |u| + |g|;
  }

  /** What one pop makes of `u + g`. */
  lemma PopGives(u: seq<byte>, t: seq<byte>, g: seq<byte>, past: Option<byte>, length: nat, q: Option<byte>)
    requires t == SkipToDollar(u) && HasFrame(t) && length == FrameLength(t) && q == BroughtIn(u, t, g, past)
    ensures Complete(AsWritten, t + g) && SkipToDollar(u + g) == t + g && PastSkip(u + g, past) == q
    ensures length <= |t + g|
    ensures FrameLength(t + g) == length && (t + g)[..length] == t[..length] && (t + g)[length..] == t[length..] + g
  {
    PopStarts(u, t, g, length);
    PopBrings(u, t, g, past);
    FrameComplete(t + g);
  }

  lemma FrameComplete(w: seq<byte>)
    requires HasFrame(w)
    ensures Complete(AsWritten, w) && FrameLength(w) <= |w|
  {
  }

  lemma TakeWhole(w: seq<byte>, q: Option<byte>, length: nat)
    requires Complete(AsWritten, w) && length == FrameLength(w) == |w|
    ensures Take(AsWritten, w, q) == Took(w[..length], [])
  {
    assert w[length..] == [];
  }

  lemma TakeMoves(w: seq<byte>, q: Option<byte>, length: nat, rest: seq<byte>)
    requires Complete(AsWritten, w) && length == FrameLength(w) < |w| && rest == w[length..]
    ensures Take(AsWritten, w, q) == if q == None then Undefined else Took(w[..length], rest[1..] + [q.value])
  {
  }

  lemma PopWhole(v: seq<byte>, w: seq<byte>, past: Option<byte>, length: nat)
    requires w == SkipToDollar(v) && Complete(AsWritten, w) && length == FrameLength(w) == |w|
    ensures DrainStale(AsWritten, v, past) == Drained([w[..length]], [])
  {
    TakeWhole(w, PastSkip(v, past), length);
    DrainStaleStep(AsWritten, v, past, w);
    NothingStale(Some(w[0]));
    assert [w[..length]] + [] == [w[..length]];
  }

  lemma PopLost(v: seq<byte>, w: seq<byte>, past: Option<byte>, length: nat)
    requires w == SkipToDollar(v) && Complete(AsWritten, w) && length == FrameLength(w) < |w|
    requires PastSkip(v, past) == None
    ensures DrainStale(AsWritten, v, past) == Lost
  {
    TakeMoves(w, None, length, w[length..]);
    DrainStaleStep(AsWritten, v, past, w);
  }

  lemma PopMoves(v: seq<byte>, w: seq<byte>, past: Option<byte>, length: nat, rest: seq<byte>, q: byte,
                 moved: seq<byte>, stale: byte)
    requires w == SkipToDollar(v) && Complete(AsWritten, w) && length == FrameLength(w) < |w| && rest == w[length..]
    requires PastSkip(v, past) == Some(q) && moved == rest[1..] + [q] && stale == w[|w| - length]
    ensures DrainStale(AsWritten, v, past) == Prefixed(w[..length], DrainStale(AsWritten, moved, Some(stale)))
  {
    TakeMoves(w, Some(q), length, rest);
    assert |moved| == |w| - length;
    DrainStaleTook(AsWritten, v, past, w, w[..length], moved, stale);
  }

  /** The whole buffer was one packet. */
  lemma WholePacket(u: seq<byte>, t: seq<byte>, past: Option<byte>)
    requires t == SkipToDollar(u) && HasFrame(t) && FrameLength(t) == |t|
    ensures RightWith(u, [], past) && EndsWithPacket(u)
  {
    assert u + [] == u;
    EndsStale(u, past);
  }

  lemma LostExact(u: seq<byte>, t: seq<byte>, g: seq<byte>, past: Option<byte>, length: nat)
    requires t == SkipToDollar(u) && HasFrame(t) && length == FrameLength(t)
    requires t[length..] + g != [] && BroughtIn(u, t, g, past) == None
    ensures !RightWith(u, g, past)
  {
    PopGives(u, t, g, past, length, None);
    PopLost(u + g, t + g, past, length);
  }

  /** The last packet of the true bytes: what is behind it moves down by one. */
  lemma LastExact(u: seq<byte>, t: seq<byte>, g: seq<byte>, past: Option<byte>, q: byte, moved: seq<byte>)
    requires t == SkipToDollar(u) && HasFrame(t) && FrameLength(t) == |t| && g != []
    requires BroughtIn(u, t, g, past) == Some(q) && moved == g[1..] + [q]
    ensures RightWith(u, g, past) <==> DOLLAR !in moved
    ensures Tail(u) == []
  {
    var length := |t|;
    assert t[length..] == [] && [] + g == g;
    PopGives(u, t, g, past, length, Some(q));
    var stale := LeftBehind(t, g);
    PopMoves(u + g, t + g, past, length, g, q, moved, stale);
    GrammarStep(u, t, length);
    GapThenGarbage([], moved, Some(stale));
    assert [] + moved == moved;
    PrefixedEqual(t[..length], DrainStale(AsWritten, moved, Some(stale)), [], []);
  }

  lemma MovesOn(rest: seq<byte>, g: seq<byte>, q: byte)
    requires rest != []
    ensures (rest + g)[1..] + [q] == rest[1..] + (g + [q])
  {
  }

  lemma PopNext(u: seq<byte>, t: seq<byte>, g: seq<byte>, past: Option<byte>, q: byte, rest: seq<byte>, length: nat,
                moved: seq<byte>, stale: Option<byte>)
    requires t == SkipToDollar(u) && HasFrame(t) && length == FrameLength(t) && rest == t[length..] && rest != []
    requires BroughtIn(u, t, g, past) == Some(q) && stale == Some(LeftBehind(t, g))
    requires moved == rest[1..] + (g + [q])
    ensures DrainStale(AsWritten, u + g, past) == Prefixed(t[..length], DrainStale(AsWritten, moved, stale))
  {
    PopGives(u, t, g, past, length, Some(q));
    MovesOn(rest, g, q);
    PopMovesFrame(u + g, t + g, past, length, rest + g, q, moved, stale.value, t[..length]);
  }

  lemma PopMovesFrame(v: seq<byte>, w: seq<byte>, past: Option<byte>, length: nat, rest: seq<byte>, q: byte,
                      moved: seq<byte>, stale: byte, frame: seq<byte>)
    requires w == SkipToDollar(v) && Complete(AsWritten, w) && length == FrameLength(w) <= |w| && rest == w[length..]
    requires PastSkip(v, past) == Some(q) && rest != [] && moved == rest[1..] + [q] && stale == w[|w| - length]
    requires frame == w[..length]
    ensures DrainStale(AsWritten, v, past) == Prefixed(frame, DrainStale(AsWritten, moved, Some(stale)))
  {
    PopMoves(v, w, past, length, rest, q, moved, stale);
  }

  /** Another byte behind the packet: it is dropped, and the true bytes go on behind it. */
  lemma NextRight(u: seq<byte>, t: seq<byte>, g: seq<byte>, past: Option<byte>, q: byte, rest: seq<byte>,
                  stale: Option<byte>)
    requires t == SkipToDollar(u) && HasFrame(t) && rest == t[FrameLength(t)..] && rest != [] && rest[0] != DOLLAR
    requires BroughtIn(u, t, g, past) == Some(q) && stale == Some(LeftBehind(t, g))
    ensures RightWith(u, g, past) <==> RightWith(rest[1..], g + [q], stale)
    ensures Tail(u) == Tail(rest[1..])
  {
    var length, moved := FrameLength(t), rest[1..] + (g + [q]);
    PopNext(u, t, g, past, q, rest, length, moved, stale);
    GrammarStep(u, t, length);
    GapByte(rest);
    PrefixedEqual(t[..length], DrainStale(AsWritten, moved, stale), Frames(rest), Tail(rest));
  }

  // ---------------------------------------------------------------- the exact condition

  /** Where the true bytes and what is behind them stand after a pop that leaves some of them. */
  lemma LeftoverNext(u: seq<byte>, g: seq<byte>, past: Option<byte>, t: seq<byte>, rest: seq<byte>, q: byte,
                     stale: Option<byte>)
    requires t == SkipToDollar(u) && HasFrame(t) && rest == t[FrameLength(t)..] && rest != []
    requires BroughtIn(u, t, g, past) == Some(q) && stale == Some(LeftBehind(t, g))
    ensures Leftover(u, g, past) == Leftover(rest[1..], g + [q], stale)
  {
  }

  lemma LeftoverLast(u: seq<byte>, g: seq<byte>, past: Option<byte>, t: seq<byte>)
    requires t == SkipToDollar(u) && HasFrame(t) && t[FrameLength(t)..] == []
    ensures Leftover(u, g, past) ==
      if g == [] then Some([])
      else if BroughtIn(u, t, g, past) == None then None
      else Some(g[1..] + [BroughtIn(u, t, g, past).value])
  {
    assert [] + g == g;
  }

  lemma LeftoverLost(u: seq<byte>, g: seq<byte>, past: Option<byte>, t: seq<byte>)
    requires t == SkipToDollar(u) && HasFrame(t) && t[FrameLength(t)..] != [] && BroughtIn(u, t, g, past) == None
    ensures Leftover(u, g, past) == None
  {
  }

  lemma {:induction false} LeftoverNonempty(u: seq<byte>, g: seq<byte>, past: Option<byte>)
    requires g != []
    ensures Leftover(u, g, past) != Some([])
    decreases |u|
  {
    var t := SkipToDollar(u);
    if HasFrame(t) {
      var rest, q := t[FrameLength(t)..], BroughtIn(u, t, g, past);
      if rest == [] {
        LeftoverLast(u, g, past, t);
      } else if q == None {
        LeftoverLost(u, g, past, t);
      } else {
        var stale := Some(LeftBehind(t, g));
        LeftoverNext(u, g, past, t, rest, q.value, stale);
        LeftoverNonempty(rest[1..], g + [q.value], stale);
      }
    }
  }

  /** Something was brought in, so what counts is whether it holds a '$'. */
  lemma HarmlessNext(u: seq<byte>, v: seq<byte>, x: Option<seq<byte>>)
    requires Tail(u) == Tail(v) && x != Some([])
    ensures Harmless(u, x) <==> Harmless(v, x)
  {
  }

  lemma LastSpaced(u: seq<byte>, g: seq<byte>, past: Option<byte>, t: seq<byte>)
    requires t == SkipToDollar(u) && HasFrame(t) && t[FrameLength(t)..] == []
    ensures RightWith(u, g, past) <==> Harmless(u, Leftover(u, g, past))
  {
    LeftoverLast(u, g, past, t);
    var q := BroughtIn(u, t, g, past);
    if g == [] {
      WholePacket(u, t, past);
    } else if q == None {
      assert [] + g == g;
      LostExact(u, t, g, past, FrameLength(t));
    } else {
      LastExact(u, t, g, past, q.value, g[1..] + [q.value]);
    }
  }

  lemma {:induction false} SpacedRight(u: seq<byte>, g: seq<byte>, past: Option<byte>)
    requires Spaced(u)
    ensures RightWith(u, g, past) <==> Harmless(u, Leftover(u, g, past))
    decreases |u|
  {
    var t := SkipToDollar(u);
    if !HasFrame(t) {
      NoFrameExact(u, t, g, past);
      assert Leftover(u, g, past) == Some(g);
    } else {
      var rest, q := t[FrameLength(t)..], BroughtIn(u, t, g, past);
      SpacedStep(u, t, rest);
      if rest == [] {
        LastSpaced(u, g, past, t);
      } else if q == None {
        LeftoverLost(u, g, past, t);
        LostExact(u, t, g, past, FrameLength(t));
      } else {
        var stale := Some(LeftBehind(t, g));
        GapByte(rest);
        LeftoverNext(u, g, past, t, rest, q.value, stale);
        NextRight(u, t, g, past, q.value, rest, stale);
        SpacedRight(rest[1..], g + [q.value], stale);
        LeftoverNonempty(rest[1..], g + [q.value], stale);
        HarmlessNext(u, rest[1..], Leftover(rest[1..], g + [q.value], stale));
      }
    }
  }

  /**
   * For a buffer whose packets do not touch, any number of them: as written the loop on the array meets
   * the grammar if and only if the buffer ends with its packet, or nothing is left unfinished and the
   * stale bytes brought in and still there at the end hold no '$'.
   */
  lemma SpacedExact(b: Buffer)
    requires Sound(b) && Spaced(Contents(b))
    ensures DrainsRight(AsWritten, b) <==> Harmless(Contents(b), Leftover(Contents(b), [], Past(b)))
  {
    RightRefines(AsWritten, b);
    SpacedRight(Contents(b), [], Past(b));
    assert Contents(b) + [] == Contents(b);
  }

  /** Reads none of which leaves packets that touch. */
  predicate SpacedReads(v: seq<byte>, chunks: seq<seq<byte>>)
    decreases |chunks|
  {
    chunks == [] || (Spaced(v + chunks[0]) && SpacedReads(Tail(v + chunks[0]), chunks[1..]))
  }

  /** Every read, on the array as the reads before it leave it, does no harm. */
  predicate HarmlessReads(b: Buffer, rs: seq<Read>)
    requires Sound(b)
    decreases |rs|
  {
    rs == [] ||
    var f := Filled(b, rs[0]);
    && Harmless(Contents(f), Leftover(Contents(f), [], Past(f)))
    && Drain(AsWritten, f).Emptied?
    && HarmlessReads(Drain(AsWritten, f).b, rs[1..])
  }

  /** So for whole streams, on one array from read to read. */
  lemma {:induction false} SpacedReceivesExact(b: Buffer, rs: seq<Read>)
    requires Sound(b) && SpacedReads(Contents(b), Chunks(rs))
    ensures Receive(AsWritten, b, rs) == Expected(Contents(b), Chunks(rs)) <==> HarmlessReads(b, rs)
    decreases |rs|
  {
    if rs != [] {
      var f := Filled(b, rs[0]);
      assert Chunks(rs)[1..] == Chunks(rs[1..]);
      SpacedExact(f);
      var o := Drain(AsWritten, f);
      if o == Gone {
        GoneWrong(AsWritten, b, rs, f, Contents(f));
      } else {
        ReceiveExact(AsWritten, b, rs, f, o, Contents(f));
        if DrainsRight(AsWritten, f) { SpacedReceivesExact(o.b, rs[1..]); }
      }
    }
  }

  // ---------------------------------------------------------------- one packet

  /** A gap, one packet, and behind it nothing that is a whole packet. */
  predicate OnePacket(gap: seq<byte>, f: seq<byte>, rest: seq<byte>)
  {
    DOLLAR !in gap && IsFrame(f) && Frames(rest) == []
  }

  /** The byte the pop brings in. */
  function Incoming(gap: seq<byte>, v: seq<byte>, past: Option<byte>): Option<byte>
    requires |gap| <= |v|
  {
    if gap == [] then past else Some(v[|v| - |gap|])
  }

  /** Rest and byte brought in do no harm: neither brings a '$', or everything is '$' and nothing changes. */
  predicate Unharmed(rest: seq<byte>, q: byte)
  {
    if DOLLAR in rest then q == DOLLAR && forall i :: 0 <= i < |rest| ==> rest[i] == DOLLAR else q != DOLLAR
  }

  lemma OneStart(gap: seq<byte>, f: seq<byte>, rest: seq<byte>, v: seq<byte>, past: Option<byte>)
    requires OnePacket(gap, f, rest) && v == gap + (f + rest)
    ensures SkipToDollar(v) == f + rest && Complete(AsWritten, f + rest) && FrameLength(f + rest) == |f|
    ensures (f + rest)[..|f|] == f && (f + rest)[|f|..] == rest
    ensures PastSkip(v, past) == Incoming(gap, v, past)
    ensures Frames(v) == [f] && Tail(v) == Tail(rest)
  {
    OneFrame(f, rest);
    SkipGap(gap, f + rest);
    OneIncoming(gap, f + rest, v, past);
    GapThenFrame(gap, f, rest);
    assert [f] + [] == [f];
  }

  lemma OneFrame(f: seq<byte>, rest: seq<byte>)
    requires IsFrame(f)
    ensures var t := f + rest;
      t[0] == DOLLAR && t[..|f|] == f && t[|f|..] == rest && Complete(AsWritten, t) && FrameLength(t) == |f|
  {
    var t := f + rest;
    assert t[0] == f[0] && t[..|f|] == f;
    HasFrameMeaning(t);
    FrameComplete(t);
  }

  lemma OneIncoming(gap: seq<byte>, t: seq<byte>, v: seq<byte>, past: Option<byte>)
    requires v == gap + t && SkipToDollar(v) == t
    ensures PastSkip(v, past) == Incoming(gap, v, past)
  {
    assert |v| == |gap| + |t|;
  }

  lemma MovedExact(rest: seq<byte>, q: byte, stale: Option<byte>)
    requires rest != [] && Frames(rest) == []
    ensures DrainStale(AsWritten, rest[1..] + [q], stale) == Drained([], Tail(rest)) <==> Unharmed(rest, q)
  {
    var moved := rest[1..] + [q];
    var t := SkipToDollar(rest);
    assert !HasFrame(t);
    SkipsTo(rest, t);
    var m := SkipToDollar(moved);
    DrainStaleStep(AsWritten, moved, stale, m);
    if DOLLAR !in rest {
      GapThenGarbage(rest[1..], [q], stale);
    } else if rest[0] != DOLLAR {
      LaterDollar(rest, q, t, stale);
    } else {
      FirstDollar(rest, q, stale);
    }
  }

  lemma LaterDollar(rest: seq<byte>, q: byte, t: seq<byte>, stale: Option<byte>)
    requires DOLLAR in rest && rest[0] != DOLLAR && t == SkipToDollar(rest) && !HasFrame(t)
    ensures DrainStale(AsWritten, rest[1..] + [q], stale) != Drained([], t)
  {
    assert rest == [rest[0]] + rest[1..];
    SkipAppend([rest[0]], rest[1..]);
    assert DOLLAR in rest[1..];
    UnfinishedThenGarbage(rest[1..], t, [q], stale);
    SkipsTo(rest[1..], t);
    SameStart(rest[1..], t);
    UnfinishedTail(t);
  }

  /** The '$' itself is dropped: nothing is as it was unless all bytes are '$'. */
  lemma FirstDollar(rest: seq<byte>, q: byte, stale: Option<byte>)
    requires rest != [] && rest[0] == DOLLAR && !HasFrame(rest)
    ensures DrainStale(AsWritten, rest[1..] + [q], stale) == Drained([], rest)
      <==> q == DOLLAR && forall i :: 0 <= i < |rest| ==> rest[i] == DOLLAR
  {
    var moved := rest[1..] + [q];
    var m := SkipToDollar(moved);
    DrainStaleStep(AsWritten, moved, stale, m);
    ShiftConstant(rest, q);
    IndexOfIs(rest, DOLLAR, 0);
    if moved == rest {
      assert forall i :: 0 <= i < |rest| ==> rest[i] == q;
      assert rest[0] == q;
      assert HASH !in moved;
    }
  }

  /**
   * One packet in the buffer, over any array: as written it is right if and only if nothing is behind the
   * packet, or the byte brought in and what is behind do no harm. That byte is one of the buffer's own
   * when a gap had to be skipped.
   */
  lemma OnePacketExact(b: Buffer, gap: seq<byte>, f: seq<byte>, rest: seq<byte>)
    requires Sound(b) && OnePacket(gap, f, rest) && Contents(b) == gap + (f + rest)
    ensures DrainsRight(AsWritten, b) <==>
      rest == []
      || (Incoming(gap, Contents(b), Past(b)).Some? && Unharmed(rest, Incoming(gap, Contents(b), Past(b)).value))
  {
    RightRefines(AsWritten, b);
    OneStale(Contents(b), Past(b), gap, f, rest);
  }

  lemma OneStale(v: seq<byte>, past: Option<byte>, gap: seq<byte>, f: seq<byte>, rest: seq<byte>)
    requires OnePacket(gap, f, rest) && v == gap + (f + rest)
    ensures StaleRight(AsWritten, v, past) <==>
      rest == [] || (Incoming(gap, v, past).Some? && Unharmed(rest, Incoming(gap, v, past).value))
  {
    OneStart(gap, f, rest, v, past);
    var q, w := Incoming(gap, v, past), f + rest;
    if rest == [] {
      OneAlone(v, w, past, f);
    } else if q == None {
      PopLost(v, w, past, |f|);
    } else {
      OneMoves(v, w, past, f, rest, q.value, rest[1..] + [q.value], w[|w| - |f|]);
      MovedExact(rest, q.value, Some(w[|w| - |f|]));
    }
  }

  lemma OneAlone(v: seq<byte>, w: seq<byte>, past: Option<byte>, f: seq<byte>)
    requires w == SkipToDollar(v) && Complete(AsWritten, w) && |f| == FrameLength(w) == |w| && w[..|f|] == f
    requires Frames(v) == [f] && Tail(v) == Tail([])
    ensures StaleRight(AsWritten, v, past)
  {
    PopWhole(v, w, past, |f|);
    NothingStale(None);
  }

  lemma OneMoves(v: seq<byte>, w: seq<byte>, past: Option<byte>, f: seq<byte>, rest: seq<byte>, q: byte,
                 moved: seq<byte>, stale: byte)
    requires w == SkipToDollar(v) && Complete(AsWritten, w) && |f| == FrameLength(w) < |w| && w[..|f|] == f
    requires rest == w[|f|..] && PastSkip(v, past) == Some(q) && moved == rest[1..] + [q] && stale == w[|w| - |f|]
    requires Frames(v) == [f]
    ensures StaleRight(AsWritten, v, past) <==> DrainStale(AsWritten, moved, Some(stale)) == Drained([], Tail(v))
  {
    PopMoves(v, w, past, |f|, rest, q, moved, stale);
    PrefixedEqual(f, DrainStale(AsWritten, moved, Some(stale)), [], Tail(v));
    assert [f] + [] == [f];
  }

  /**
   * The usual read of one packet, something other than a '$' around it: right whatever memory lies
   * behind if and only if something was in front of the packet and the stale byte is no '$'.
   */
  lemma UsualReadExact(gap: seq<byte>, f: seq<byte>, rest: seq<byte>)
    requires DOLLAR !in gap && IsFrame(f) && DOLLAR !in rest && rest != []
    ensures var v := gap + (f + rest);
      AlwaysRight(v) <==> gap != [] && v[|v| - |gap|] != DOLLAR
  {
    var v := gap + (f + rest);
    forall past: Option<byte> ensures StaleRight(AsWritten, v, past) <==> NoDollar(Incoming(gap, v, past)) {
      UsualStale(v, past, gap, f, rest);
    }
    UsualAlways(v, gap);
  }

  predicate NoDollar(q: Option<byte>)
  {
    q.Some? && q.value != DOLLAR
  }

  lemma UsualStale(v: seq<byte>, past: Option<byte>, gap: seq<byte>, f: seq<byte>, rest: seq<byte>)
    requires DOLLAR !in gap && IsFrame(f) && DOLLAR !in rest && rest != [] && v == gap + (f + rest)
    ensures StaleRight(AsWritten, v, past) <==> NoDollar(Incoming(gap, v, past))
  {
    GapThenGarbage(rest, [], None);
    OneStale(v, past, gap, f, rest);
  }

  lemma UsualAlways(v: seq<byte>, gap: seq<byte>)
    requires |gap| <= |v|
    requires forall past: Option<byte> :: StaleRight(AsWritten, v, past) <==> NoDollar(Incoming(gap, v, past))
    ensures AlwaysRight(v) <==> gap != [] && v[|v| - |gap|] != DOLLAR
  {
    var none: Option<byte> := None;
    assert StaleRight(AsWritten, v, none) <==> NoDollar(Incoming(gap, v, none));
  }

  // ---------------------------------------------------------------- inputs

  /** An acknowledgment before a packet and something behind it: right, though the read does not end with its packet. */
  lemma AckBefore(c: byte, f: seq<byte>, rest: seq<byte>)
    requires c != DOLLAR && IsFrame(f) && DOLLAR !in rest && rest != []
    ensures var v := [c] + (f + rest); AlwaysRight(v) && !EndsWithPacket(v)
  {
    var v := [c] + (f + rest);
    assert v[|v| - 1] == rest[|rest| - 1];
    UsualReadExact([c], f, rest);
    GapThenGarbage(rest, [], None);
    OneStart([c], f, rest, v, None);
  }

  lemma PayloadFrame(p: seq<byte>, f: seq<byte>, digits: seq<byte>)
    requires HASH !in p && |digits| == 2 && f == [DOLLAR] + p + [HASH] + digits
    ensures IsFrame(f)
  {
    assert f[..|f| - 3] == [DOLLAR] + p;
  }

  lemma AsciiAppend(a: string, b: string)
    ensures Ascii(a + b) == Ascii(a) + Ascii(b)
  {
  }

  /** A packet as text, behind an acknowledgment. */
  lemma AckText(payload: string, digits: string, rest: seq<byte>, f: seq<byte>, v: seq<byte>)
    requires WithoutHash(payload) && |digits| == 2 && f == [DOLLAR] + Ascii(payload) + [HASH] + Ascii(digits)
    requires rest != [] && DOLLAR !in rest && v == ['+' as byte] + (f + rest)
    ensures AlwaysRight(v) && !EndsWithPacket(v)
  {
    TextWithoutHash(payload);
    PayloadFrame(Ascii(payload), f, Ascii(digits));
    AckBefore('+' as byte, f, rest);
  }

  lemma TextParts(text: string, payload: string, digits: string, f: seq<byte>)
    requires text == "+$" + payload + "#" + digits && f == [DOLLAR] + Ascii(payload) + [HASH] + Ascii(digits)
    ensures Ascii(text) == ['+' as byte] + f
  {
    AsciiAppend("+$" + payload + "#", digits);
    AsciiAppend("+$" + payload, "#");
    AsciiAppend("+$", payload);
    assert Ascii("+$") == ['+' as byte] + [DOLLAR] && Ascii("#") == [HASH];
  }

  lemma AckInput(text: string, payload: string, digits: string, rest: seq<byte>)
    requires text == "+$" + payload + "#" + digits && WithoutHash(payload) && |digits| == 2
    requires rest != [] && DOLLAR !in rest
    ensures var v := Ascii(text) + rest; AlwaysRight(v) && !EndsWithPacket(v)
  {
    var f := [DOLLAR] + Ascii(payload) + [HASH] + Ascii(digits);
    TextParts(text, payload, digits, f);
    Reassociate(['+' as byte], f, rest);
    AckText(payload, digits, rest, f, Ascii(text) + rest);
  }

  /** "+$?#3f+" */
  lemma AckBehind()
    ensures var v := Ascii("+$?#3f") + Ascii("+"); AlwaysRight(v) && !EndsWithPacket(v)
  {
    AckInput("+$?#3f", "?", "3f", Ascii("+"));
  }

  /** "+$vCont;c#a8", and a Ctrl-C behind it. */
  lemma InterruptBehind()
    ensures var v := Ascii("+$vCont;c#a8") + [INTR_CHAR]; AlwaysRight(v) && !EndsWithPacket(v)
  {
    AckInput("+$vCont;c#a8", "vCont;c", "a8", [INTR_CHAR]);
  }

  lemma FrameFirst(f: seq<byte>, rest: seq<byte>, t: seq<byte>)
    requires IsFrame(f) && t == f + rest
    ensures SkipToDollar(t) == t && HasFrame(t) && FrameLength(t) == |f| && t[..|f|] == f && t[|f|..] == rest
  {
    OneFrame(f, rest);
    SkipGap([], t);
    assert [] + t == t;
  }

  lemma FrameThen(f: seq<byte>, rest: seq<byte>, t: seq<byte>)
    requires IsFrame(f) && t == f + rest
    ensures Frames(t) == [f] + Frames(rest) && Tail(t) == Tail(rest)
  {
    GapThenFrame([], f, rest);
    assert [] + t == t;
  }

  lemma NothingIn(rest: seq<byte>)
    requires DOLLAR !in rest
    ensures SkipToDollar(rest) == [] && Frames(rest) == [] && Tail(rest) == [] && Spaced(rest)
  {
    GapThenGarbage(rest, [], None);
    assert SkipToDollar(rest) == [];
  }

  lemma TwoStart(v: seq<byte>, f: seq<byte>, c: byte, g: seq<byte>, rest: seq<byte>, w: seq<byte>, u: seq<byte>)
    requires IsFrame(f) && IsFrame(g) && c != DOLLAR && DOLLAR !in rest && u == g + rest && w == [c] + u && v == f + w
    ensures Frames(v) == [f, g] && Tail(v) == [] && Spaced(v)
  {
    NothingIn(rest);
    SpacedFirst(g, rest, u);
    SpacedGap(c, u, w);
    SpacedFirst(f, w, v);
    Pair(f, g);
  }

  lemma Pair<T>(f: T, g: T)
    ensures [f] + ([g] + []) == [f, g]
  {
  }

  lemma SpacedGap(c: byte, u: seq<byte>, w: seq<byte>)
    requires c != DOLLAR && w == [c] + u
    ensures w[1..] == u && Frames(w) == Frames(u) && Tail(w) == Tail(u) && Spaced(w) == Spaced(u)
  {
    assert w[1..] == u;
    GapByte(w);
  }

  lemma SpacedFirst(f: seq<byte>, rest: seq<byte>, t: seq<byte>)
    requires IsFrame(f) && t == f + rest && (rest == [] || rest[0] != DOLLAR)
    ensures SkipToDollar(t) == t && HasFrame(t) && FrameLength(t) == |f| && t[|f|..] == rest
    ensures Frames(t) == [f] + Frames(rest) && Tail(t) == Tail(rest) && Spaced(t) == Spaced(rest)
  {
    FrameFirst(f, rest, t);
    FrameThen(f, rest, t);
    SpacedStep(t, t, rest);
  }

  /**
   * A packet that touches the one before loses its '$' and is never delivered, over any array; or the
   * moves leave the allocation.
   */
  lemma SecondPacketDropped(b: Buffer, gap: seq<byte>, f: seq<byte>, g: seq<byte>, rest: seq<byte>)
    requires Sound(b) && DOLLAR !in gap && IsFrame(f) && IsFrame(g) && DOLLAR !in g[1..] && DOLLAR !in rest
    requires Contents(b) == gap + (f + (g + rest))
    ensures Frames(Contents(b)) == [f, g]
    ensures var o := Drain(AsWritten, b); o == Gone || o.frames == [f]
  {
    var v, u, w := Contents(b), g + rest, f + (g + rest);
    TouchingFrames(v, gap, f, g, rest, u, w);
    TouchingHead(v, gap, f, u, w);
    BehindHead(g, rest, u);
    DrainRefines(AsWritten, b);
    TouchingStale(v, w, Past(b), f, u);
  }

  lemma TouchingFrames(v: seq<byte>, gap: seq<byte>, f: seq<byte>, g: seq<byte>, rest: seq<byte>, u: seq<byte>,
                       w: seq<byte>)
    requires DOLLAR !in gap && IsFrame(f) && IsFrame(g) && DOLLAR !in g[1..] && DOLLAR !in rest
    requires u == g + rest && w == f + u && v == gap + w
    ensures Frames(v) == [f, g]
  {
    NothingIn(rest);
    FrameThen(g, rest, u);
    GapThenFrame(gap, f, u);
    Pair(f, g);
  }

  lemma TouchingHead(v: seq<byte>, gap: seq<byte>, f: seq<byte>, u: seq<byte>, w: seq<byte>)
    requires DOLLAR !in gap && IsFrame(f) && w == f + u && v == gap + w
    ensures w == SkipToDollar(v) && HasFrame(w) && FrameLength(w) == |f| && w[..|f|] == f && w[|f|..] == u
  {
    FrameFirst(f, u, w);
    SkipGap(gap, w);
  }

  lemma BehindHead(g: seq<byte>, rest: seq<byte>, u: seq<byte>)
    requires g != [] && DOLLAR !in g[1..] && DOLLAR !in rest && u == g + rest
    ensures u != [] && DOLLAR !in u[1..]
  {
    assert u[1..] == g[1..] + rest;
  }

  lemma TouchingStale(v: seq<byte>, w: seq<byte>, past: Option<byte>, f: seq<byte>, u: seq<byte>)
    requires w == SkipToDollar(v) && HasFrame(w) && FrameLength(w) == |f| && w[..|f|] == f && w[|f|..] == u
    requires u != [] && DOLLAR !in u[1..]
    ensures var d := DrainStale(AsWritten, v, past); d == Lost || d.frames == [f]
  {
    var q := PastSkip(v, past);
    if q == None {
      PopLost(v, w, past, |f|);
    } else {
      var moved, stale := u[1..] + [q.value], w[|w| - |f|];
      PopMoves(v, w, past, |f|, u, q.value, moved, stale);
      NoPacket(u[1..], q.value, moved, Some(stale));
    }
  }

  lemma NoPacket(rest: seq<byte>, q: byte, moved: seq<byte>, past: Option<byte>)
    requires DOLLAR !in rest && moved == rest + [q]
    ensures var d := DrainStale(AsWritten, moved, past); d.Drained? && d.frames == []
  {
    SkipAppend(rest, [q]);
    DrainStaleStep(AsWritten, moved, past, SkipToDollar([q]));
  }

  /** A packet whose last digit has not arrived passes the end test as written, and the pop leaves the allocation. */
  lemma ShortPacketLost(b: Buffer, gap: seq<byte>, t: seq<byte>)
    requires Sound(b) && Contents(b) == gap + t && DOLLAR !in gap
    requires t != [] && t[0] == DOLLAR && FrameLength(t) == |t| + 1
    ensures Frames(Contents(b)) == [] && Tail(Contents(b)) == t && Drain(AsWritten, b) == Gone
  {
    SkipGap(gap, t);
    SkipsTo(Contents(b), t);
    DrainRefines(AsWritten, b);
    DrainStaleStep(AsWritten, Contents(b), Past(b), t);
  }

  lemma ZeroedDrain(v: seq<byte>, f: seq<byte>, g: seq<byte>, c: byte, w: seq<byte>, u: seq<byte>)
    requires IsFrame(f) && IsFrame(g) && |f| == |g| + 1 && c != DOLLAR && w == [c] + (g + [c]) && v == f + w
    requires u == g + [c, 0]
    ensures DrainStale(AsWritten, v, Some(0)) == Drained([f, g], [DOLLAR])
  {
    ZeroedFirst(v, f, g, c, w, u);
    ZeroedSecond(u, g, c, [0, DOLLAR]);
    assert [f] + [g] == [f, g];
  }

  lemma ZeroedFirst(v: seq<byte>, f: seq<byte>, g: seq<byte>, c: byte, w: seq<byte>, u: seq<byte>)
    requires IsFrame(f) && |f| == |g| + 1 && w == [c] + (g + [c]) && v == f + w && u == g + [c, 0]
    requires g != [] && g[0] == DOLLAR
    ensures DrainStale(AsWritten, v, Some(0)) == Prefixed(f, DrainStale(AsWritten, u, Some(DOLLAR)))
  {
    ZeroedMoved(v, f, g, c, w, u);
    FrameFirst(f, w, v);
    PopMoves(v, v, Some(0), |f|, w, 0, u, DOLLAR);
  }

  lemma ZeroedMoved(v: seq<byte>, f: seq<byte>, g: seq<byte>, c: byte, w: seq<byte>, u: seq<byte>)
    requires |f| == |g| + 1 && w == [c] + (g + [c]) && v == f + w && u == g + [c, 0]
    requires g != [] && g[0] == DOLLAR
    ensures w[1..] + [0] == u && v[|v| - |f|] == DOLLAR
  {
    assert w[1..] == g + [c];
    assert v[|v| - |f|] == w[1];
  }

  lemma ZeroedSecond(u: seq<byte>, g: seq<byte>, c: byte, last: seq<byte>)
    requires IsFrame(g) && u == g + [c, 0] && last == [0, DOLLAR]
    ensures DrainStale(AsWritten, u, Some(DOLLAR)) == Drained([g], [DOLLAR])
  {
    var rest, stale := [c, 0], u[|u| - |g|];
    FrameFirst(g, rest, u);
    assert rest[1..] + [DOLLAR] == last;
    PopMoves(u, u, Some(DOLLAR), |g|, rest, DOLLAR, last, stale);
    DollarLeft(last, Some(stale));
    assert [g] + [] == [g];
  }

  lemma DollarLeft(last: seq<byte>, past: Option<byte>)
    requires last == [0, DOLLAR]
    ensures DrainStale(AsWritten, last, past) == Drained([], [DOLLAR])
  {
    IndexOfIs(last, DOLLAR, 1);
    DrainStaleStep(AsWritten, last, past, [DOLLAR]);
  }

  /** A '$' left in the buffer goes in front of the next packet. */
  lemma DollarSpoils(b: Buffer, f: seq<byte>)
    requires Sound(b) && IsFrame(f) && Contents(b) == [DOLLAR] + f
    ensures var o := Drain(AsWritten, b); o.Emptied? && o.frames == [Contents(b)] && Contents(o.b) == []
  {
    var v := Contents(b);
    assert v[..|v| - 3] == [DOLLAR] + f[..|f| - 3] && v[|v| - 3] == f[|f| - 3];
    SingleFrame(v);
    assert v + [] == v;
    FrameFirst(v, [], v);
    EndsRight(b);
  }

  lemma ZeroedRead(b: Buffer, rd: Read, f: seq<byte>, g: seq<byte>, c: byte)
    requires Sound(b) && b.size == 0 && |rd.c| < |b.data| && b.data[|rd.c|] == 0
    requires IsFrame(f) && IsFrame(g) && |f| == |g| + 1 && c != DOLLAR && rd.c == f + ([c] + (g + [c]))
    ensures var o := Drain(AsWritten, Filled(b, rd)); o.Emptied? && o.frames == [f, g] && Contents(o.b) == [DOLLAR]
  {
    var r := Filled(b, rd);
    assert Contents(r) == rd.c;
    ZeroedDrain(rd.c, f, g, c, [c] + (g + [c]), g + [c, 0]);
    DrainRefines(AsWritten, r);
  }

  /**
   * "$gg#ce+$g#67+" in a zeroed array: the second pop brings in the '$' that the first one left behind,
   * and the next packet, read right, is delivered with that '$' in front.
   */
  lemma ZeroedFails(b: Buffer, rd: Read, next: Read, f: seq<byte>, g: seq<byte>)
    requires Sound(b) && b.size == 0 && |b.data| == 1024 && forall i :: 0 <= i < 1024 ==> b.data[i] == 0
    requires rd.c == Ascii("$gg#ce+$g#67+") && next.c == g && f == Ascii("$gg#ce") && g == Ascii("$g#67")
    ensures Expected([], [rd.c, next.c]) == [Drained([f, g], []), Drained([g], [])]
    ensures Receive(AsWritten, b, [rd, next]) == [Drained([f, g], [DOLLAR]), Drained([[DOLLAR] + g], [])]
  {
    var plus := '+' as byte;
    ZeroedText(rd.c, f, plus, g);
    TwoExpected(rd.c, next.c, f, plus, g);
    TwoReceived(b, rd, next, f, plus, g, [next], [rd, next]);
  }

  lemma ZeroedText(v: seq<byte>, f: seq<byte>, c: byte, g: seq<byte>)
    requires v == Ascii("$gg#ce+$g#67+") && f == Ascii("$gg#ce") && c == '+' as byte && g == Ascii("$g#67")
    ensures v == f + ([c] + (g + [c])) && IsFrame(f) && IsFrame(g) && |f| == |g| + 1 && |v| == 13
  {
  }

  lemma TwoReceived(b: Buffer, rd: Read, next: Read, f: seq<byte>, c: byte, g: seq<byte>, more: seq<Read>,
                    rs: seq<Read>)
    requires Sound(b) && b.size == 0 && |rd.c| < |b.data| && b.data[|rd.c|] == 0 && more == [next] && rs == [rd] + more
    requires IsFrame(f) && IsFrame(g) && |f| == |g| + 1 && c != DOLLAR && rd.c == f + ([c] + (g + [c])) && next.c == g
    ensures Receive(AsWritten, b, rs) == [Drained([f, g], [DOLLAR]), Drained([[DOLLAR] + g], [])]
  {
    ZeroedRead(b, rd, f, g, c);
    SpoiledReads(b, rd, next, Drain(AsWritten, Filled(b, rd)), g, more, rs);
  }

  lemma SpoiledReads(b: Buffer, rd: Read, next: Read, o: Outcome, g: seq<byte>, more: seq<Read>, rs: seq<Read>)
    requires Sound(b) && o == Drain(AsWritten, Filled(b, rd)) && o.Emptied? && Contents(o.b) == [DOLLAR]
    requires IsFrame(g) && next.c == g && more == [next] && rs == [rd] + more
    ensures Receive(AsWritten, b, rs) == [Drained(o.frames, [DOLLAR])] + [Drained([[DOLLAR] + g], [])]
  {
    SpoiledNext(o.b, next, g, more);
    assert rs[0] == rd && rs[1..] == more;
    ReceiveMore(AsWritten, b, rs, Filled(b, rd), o, more);
  }

  lemma SpoiledNext(b: Buffer, next: Read, g: seq<byte>, rs: seq<Read>)
    requires Sound(b) && Contents(b) == [DOLLAR] && IsFrame(g) && next.c == g && rs == [next]
    ensures Receive(AsWritten, b, rs) == [Drained([[DOLLAR] + g], [])]
  {
    var r := Filled(b, next);
    DollarSpoils(r, g);
    ReceiveMore(AsWritten, b, rs, r, Drain(AsWritten, r), []);
  }

  lemma TwoExpected(x: seq<byte>, y: seq<byte>, f: seq<byte>, c: byte, g: seq<byte>)
    requires IsFrame(f) && IsFrame(g) && c != DOLLAR && x == f + ([c] + (g + [c])) && y == g
    ensures Expected([], [x, y]) == [Drained([f, g], []), Drained([g], [])]
  {
    TwoFrames(x, f, c, g, [c] + (g + [c]), g + [c]);
    SingleFrame(y);
    ExpectedTwo(x, y, [f, g], [g]);
  }

  lemma TwoFrames(x: seq<byte>, f: seq<byte>, c: byte, g: seq<byte>, w: seq<byte>, u: seq<byte>)
    requires IsFrame(f) && IsFrame(g) && c != DOLLAR && x == f + w && w == [c] + u && u == g + [c]
    ensures Frames(x) == [f, g] && Tail(x) == []
  {
    TwoStart(x, f, c, g, [c], w, u);
  }

  lemma ExpectedTwo(x: seq<byte>, y: seq<byte>, fs: seq<seq<byte>>, gs: seq<seq<byte>>)
    requires Frames(x) == fs && Tail(x) == [] && Frames(y) == gs && Tail(y) == []
    ensures Expected([], [x, y]) == [Drained(fs, []), Drained(gs, [])]
  {
    ExpectedStep(x, [y], [x, y]);
    ExpectedStep(y, [], [y]);
  }

  lemma ExpectedStep(x: seq<byte>, more: seq<seq<byte>>, chunks: seq<seq<byte>>)
    requires chunks == [x] + more
    ensures Expected([], chunks) == [Drained(Frames(x), Tail(x))] + Expected(Tail(x), more)
  {
    assert [] + x == x && chunks[0] == x && chunks[1..] == more;
  }
}
