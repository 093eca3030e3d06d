/**
 * The packet framing of src/packet.c as functions of the buffered bytes, and the grammar it is
 * meant to implement.
 *
 * The source departs from the grammar in two places: `pktbuf_is_complete` accepts a packet whose
 * last checksum digit has not arrived, and `pktbuf_pop_packet` moves the remaining bytes from one
 * position too far. Both the code as written and the corrected code are modelled; `PopRule` tells
 * which. How the framer works on its array, and when the code as written meets the grammar, is the
 * subject of `ArrayFramer` and `StaleMemory`.
 */
module Framing {
  import opened Bytes

  // ---------------------------------------------------------------- the grammar

  /** Drops everything before the first '$'. */
  function SkipToDollar(s: seq<byte>): (t: seq<byte>)
    ensures |t| <= |s|
    ensures t != [] ==> t[0] == DOLLAR
  {
    s[IndexOf(s, DOLLAR)..]
  }

  /** A '$', anything without '#', a '#' and two more bytes. */
  predicate IsFrame(f: seq<byte>)
  {
    |f| >= 4 && f[0] == DOLLAR && f[|f| - 3] == HASH && HASH !in f[..|f| - 3]
  }

  /** Length of the frame at the head of `t`, counted up to the second byte after the first '#'. */
  function FrameLength(t: seq<byte>): nat
  {
    IndexOf(t, HASH) + 3
  }

  predicate HasFrame(t: seq<byte>)
  {
    t != [] && t[0] == DOLLAR && FrameLength(t) <= |t|
  }

  lemma HasFrameMeaning(t: seq<byte>)
    ensures HasFrame(t) ==> IsFrame(t[..FrameLength(t)])
    ensures forall n :: 0 <= n <= |t| && IsFrame(t[..n]) ==> HasFrame(t) && FrameLength(t) == n
  {
    if HasFrame(t) {
      var n := FrameLength(t);
      assert t[..n][..n - 3] == t[..IndexOf(t, HASH)];
    }
    forall n | 0 <= n <= |t| && IsFrame(t[..n]) ensures HasFrame(t) && FrameLength(t) == n {
      var f := t[..n];
      assert f[0] == t[0] && f[n - 3] == t[n - 3] && f[..n - 3] == t[..n - 3];
      IndexOfIs(t, HASH, n - 3);
    }
  }

  /** All packets of a byte stream: skip to '$', take up to the first '#' and two more bytes, repeat. */
  function Frames(s: seq<byte>): seq<seq<byte>>
    decreases |s|
  {
    var t := SkipToDollar(s);
    if HasFrame(t) then [t[..FrameLength(t)]] + Frames(t[FrameLength(t)..]) else []
  }

  /** What is left of a byte stream after its packets: nothing, or an unfinished packet from its '$' on. */
  function Tail(s: seq<byte>): seq<byte>
    decreases |s|
  {
    var t := SkipToDollar(s);
    if HasFrame(t) then Tail(t[FrameLength(t)..]) else t
  }

  predicate Unfinished(t: seq<byte>)
  {
    t == [] || (t[0] == DOLLAR && !HasFrame(t))
  }

  /** gap, frame, gap, frame, ..., gap, tail */
  function Interleave(gaps: seq<seq<byte>>, frames: seq<seq<byte>>, tail: seq<byte>): seq<byte>
    requires |gaps| == |frames| + 1
  {
    if frames == [] then gaps[0] + tail
    else gaps[0] + (frames[0] + Interleave(gaps[1..], frames[1..], tail))
  }

  /** `frames` are the packets of the stream, `gaps` the '$'-free bytes between them and `tail` the unfinished end. */
  ghost predicate Partition(gaps: seq<seq<byte>>, frames: seq<seq<byte>>, tail: seq<byte>)
  {
    && |gaps| == |frames| + 1
    && (forall g :: g in gaps ==> DOLLAR !in g)
    && (forall f :: f in frames ==> IsFrame(f))
    && Unfinished(tail)
  }

  lemma SkipGap(gap: seq<byte>, s: seq<byte>)
    requires DOLLAR !in gap
    requires s != [] ==> s[0] == DOLLAR
    ensures SkipToDollar(gap + s) == s
  {
    IndexOfAppend(gap, s, DOLLAR);
    assert (gap + s)[|gap|..] == s;
  }

  lemma GapThenFrame(gap: seq<byte>, f: seq<byte>, rest: seq<byte>)
    requires DOLLAR !in gap && IsFrame(f)
    ensures Frames(gap + (f + rest)) == [f] + Frames(rest) && Tail(gap + (f + rest)) == Tail(rest)
  {
    var t := f + rest;
    assert t[0] == f[0] && t[..|f|] == f && t[|f|..] == rest;
    SkipGap(gap, t);
    HasFrameMeaning(t);
    GrammarStep(gap + t, t, |f|);
  }

  lemma GrammarStep(s: seq<byte>, t: seq<byte>, n: nat)
    requires t == SkipToDollar(s) && HasFrame(t) && n == FrameLength(t)
    ensures Frames(s) == [t[..n]] + Frames(t[n..]) && Tail(s) == Tail(t[n..])
  {
  }

  /** A stream has no other partition into packets and gaps than the one the grammar computes. */
  lemma {:induction false} PartitionUnique(gaps: seq<seq<byte>>, frames: seq<seq<byte>>, tail: seq<byte>)
    requires Partition(gaps, frames, tail)
    ensures Frames(Interleave(gaps, frames, tail)) == frames
    ensures Tail(Interleave(gaps, frames, tail)) == tail
    decreases |frames|
  {
    if frames == [] {
      SkipGap(gaps[0], tail);
    } else {
      var rest := Interleave(gaps[1..], frames[1..], tail);
      PartitionUnique(gaps[1..], frames[1..], tail);
      GapThenFrame(gaps[0], frames[0], rest);
    }
  }

  /** Every stream has one. */
  lemma {:induction false} PartitionExists(s: seq<byte>) returns (gaps: seq<seq<byte>>)
    ensures Partition(gaps, Frames(s), Tail(s)) && Interleave(gaps, Frames(s), Tail(s)) == s
    decreases |s|
  {
    var i := IndexOf(s, DOLLAR);
    var t := SkipToDollar(s);
    assert s == s[..i] + t;
    gaps := [s[..i]];
    if HasFrame(t) {
      var n := FrameLength(t);
      HasFrameMeaning(t);
      GrammarStep(s, t, n);
      var more := PartitionExists(t[n..]);
      gaps := gaps + more;
      assert gaps[1..] == more && Frames(s)[1..] == Frames(t[n..]);
      assert t == t[..n] + t[n..];
    }
  }

  lemma SkipAppend(a: seq<byte>, b: seq<byte>)
    ensures SkipToDollar(a + b) == if DOLLAR in a then SkipToDollar(a) + b else SkipToDollar(b)
  {
    IndexOfAppend(a, b, DOLLAR);
    var i := IndexOf(a, DOLLAR);
    if DOLLAR in a {
      assert (a + b)[i..] == a[i..] + b;
    } else {
      assert (a + b)[|a| + IndexOf(b, DOLLAR)..] == b[IndexOf(b, DOLLAR)..];
    }
  }

  lemma FrameStays(t: seq<byte>, b: seq<byte>)
    requires HasFrame(t)
    ensures HasFrame(t + b) && FrameLength(t + b) == FrameLength(t)
    ensures (t + b)[..FrameLength(t)] == t[..FrameLength(t)]
    ensures (t + b)[FrameLength(t)..] == t[FrameLength(t)..] + b
  {
    IndexOfAppend(t, b, HASH);
  }

  /** Reading more input keeps the packets already found and continues from the tail. */
  lemma {:induction false} FramesAppend(a: seq<byte>, b: seq<byte>)
    ensures Frames(a + b) == Frames(a) + Frames(Tail(a) + b)
    ensures Tail(a + b) == Tail(Tail(a) + b)
    decreases |a|
  {
    var t := SkipToDollar(a);
    SkipAppend(a, b);
    if HasFrame(t) {
      var n := FrameLength(t);
      FrameStays(t, b);
      GrammarStep(a, t, n);
      GrammarStep(a + b, t + b, n);
      FramesAppend(t[n..], b);
      Reassociate([t[..n]], Frames(t[n..]), Frames(Tail(a) + b));
    } else {
      SkipAppend(t, b);
      assert t == [] ==> t + b == b;
      SameStart(a + b, t + b);
      assert [] + Frames(t + b) == Frames(t + b);
    }
  }

  lemma Reassociate<T>(a: seq<T>, b: seq<T>, c: seq<T>)
    ensures a + (b + c) == (a + b) + c
  {
  }

  lemma SameStart(a: seq<byte>, b: seq<byte>)
    requires SkipToDollar(a) == SkipToDollar(b)
    ensures Frames(a) == Frames(b) && Tail(a) == Tail(b)
  {
  }

  lemma {:induction false} TailUnfinished(s: seq<byte>)
    ensures Unfinished(Tail(s)) && Tail(Tail(s)) == Tail(s) && Frames(Tail(s)) == []
    decreases |s|
  {
    var t := SkipToDollar(s);
    if HasFrame(t) {
      TailUnfinished(t[FrameLength(t)..]);
    } else {
      assert SkipToDollar(t) == t;
    }
  }

  // ---------------------------------------------------------------- the framer

  datatype PopRule = AsWritten | Corrected

  /** The end test of `pktbuf_is_complete` on a buffer that starts with its '$'. */
  predicate Complete(rule: PopRule, t: seq<byte>)
  {
    HASH in t &&
    var endPos := IndexOf(t, HASH) + CSUM_SIZE;
    if rule == AsWritten then endPos <= |t| else endPos < |t|
  }

  /** `Undefined`: the C code reads or moves memory outside the buffer's allocation. */
  datatype Taken = Undefined | Took(frame: seq<byte>, rest: seq<byte>)

  /**
   * `pktbuf_pop_packet` on the valid bytes `t`; `past` is the byte stored just after them, `None`
   * when the allocation ends there.
   */
  function Take(rule: PopRule, t: seq<byte>, past: Option<byte>): (r: Taken)
    requires Complete(rule, t)
    ensures r.Took? ==> |r.rest| + FrameLength(t) == |t|
  {
    var size := FrameLength(t);
    if size > |t| then Undefined
    else
      var rest := t[size..];
      match rule
      case Corrected => Took(t[..size], rest)
      case AsWritten =>
        if rest == [] then Took(t[..size], rest)
        else if past == None then Undefined
        else Took(t[..size], rest[1..] + [past.value])
  }

  /** One pop as written gives what the corrected pop gives exactly when nothing differs under the shift. */
  lemma TakeAgrees(t: seq<byte>, past: Option<byte>)
    requires t != [] && t[0] == DOLLAR && Complete(AsWritten, t)
    ensures Complete(Corrected, t) && Take(AsWritten, t, past) == Take(Corrected, t, past)
      <==> FrameLength(t) <= |t| && forall i :: FrameLength(t) <= i < |t| ==> past == Some(t[i])
  {
    var n := FrameLength(t);
    if n < |t| {
      var rest := t[n..];
      assert forall i :: n <= i < |t| ==> t[i] == rest[i - n];
      if past == None {
        assert past != Some(t[n]);
      } else {
        ShiftConstant(rest, past.value);
        assert (forall i :: n <= i < |t| ==> past == Some(t[i]))
          <==> forall i :: 0 <= i < |rest| ==> rest[i] == past.value by {
          assert forall i :: 0 <= i < |rest| ==> rest[i] == t[i + n];
        }
      }
    }
  }

  lemma {:induction false} ShiftConstant(rest: seq<byte>, p: byte)
    requires rest != []
    ensures rest[1..] + [p] == rest <==> forall i :: 0 <= i < |rest| ==> rest[i] == p
  {
    var moved := rest[1..] + [p];
    if moved == rest {
      forall i | 0 <= i < |rest| ensures rest[i] == p {
        AllLikeLast(rest, p, i);
      }
    }
  }

  lemma {:induction false} AllLikeLast(rest: seq<byte>, p: byte, i: nat)
    requires i < |rest| && rest[1..] + [p] == rest
    ensures rest[i] == p
    decreases |rest| - i
  {
    assert (rest[1..] + [p])[i] == if i + 1 < |rest| then rest[i + 1] else p;
    if i + 1 < |rest| {
      AllLikeLast(rest, p, i + 1);
    }
  }

  /** What the inner loop of the reader hands on from one buffer, and the buffer it leaves. */
  datatype Drained = Lost | Drained(frames: seq<seq<byte>>, tail: seq<byte>)

  function Prefixed(frame: seq<byte>, d: Drained): Drained
  {
    if d == Lost then Lost else Drained([frame] + d.frames, d.tail)
  }

  /** The end test passes only for a packet that is everything from the '$' on. */
  predicate EndsWithPacket(buf: seq<byte>)
  {
    var t := SkipToDollar(buf);
    Complete(AsWritten, t) ==> FrameLength(t) == |t|
  }

  // ---------------------------------------------------------------- whole streams

  function Concat(chunks: seq<seq<byte>>): seq<byte>
  {
    if chunks == [] then [] else chunks[0] + Concat(chunks[1..])
  }

  /** What the grammar says each read should deliver and leave. */
  function Expected(buf: seq<byte>, chunks: seq<seq<byte>>): (r: seq<Drained>)
    ensures |r| == |chunks|
    decreases |chunks|
  {
    if chunks == [] then []
    else
      var s := buf + chunks[0];
      [Drained(Frames(s), Tail(s))] + Expected(Tail(s), chunks[1..])
  }

  function Delivered(r: seq<Drained>): seq<seq<byte>>
  {
    if r == [] then [] else (if r[0] == Lost then [] else r[0].frames) + Delivered(r[1..])
  }

  function Left(buf: seq<byte>, r: seq<Drained>): seq<byte>
  {
    if r == [] then buf else if r[|r| - 1] == Lost then [] else r[|r| - 1].tail
  }

  lemma DeliveredCons(d: Drained, r: seq<Drained>, buf: seq<byte>)
    requires d != Lost
    ensures Delivered([d] + r) == d.frames + Delivered(r)
    ensures Left(buf, [d] + r) == Left(d.tail, r)
  {
    var all := [d] + r;
    assert all[1..] == r;
    if r != [] { assert all[|all| - 1] == r[|r| - 1]; }
  }

  /** Splitting does not matter: all reads together deliver the packets of the whole stream and leave its tail. */
  lemma {:induction false} ExpectedWhole(buf: seq<byte>, chunks: seq<seq<byte>>)
    requires Unfinished(buf)
    ensures Delivered(Expected(buf, chunks)) == Frames(buf + Concat(chunks))
    ensures Left(buf, Expected(buf, chunks)) == Tail(buf + Concat(chunks))
    decreases |chunks|
  {
    if chunks == [] {
      assert buf + [] == buf;
      UnfinishedTail(buf);
    } else {
      var s, more := buf + chunks[0], Concat(chunks[1..]);
      TailUnfinished(s);
      ExpectedWhole(Tail(s), chunks[1..]);
      FramesAppend(s, more);
      Reassociate(buf, chunks[0], more);
      DeliveredCons(Drained(Frames(s), Tail(s)), Expected(Tail(s), chunks[1..]), buf);
    }
  }

  lemma UnfinishedTail(buf: seq<byte>)
    requires Unfinished(buf)
    ensures Frames(buf) == [] && Tail(buf) == buf
  {
    if buf != [] { IndexOfIs(buf, DOLLAR, 0); }
    assert SkipToDollar(buf) == buf;
  }

  /** From an empty buffer. */
  lemma WholeStream(chunks: seq<seq<byte>>)
    ensures Delivered(Expected([], chunks)) == Frames(Concat(chunks))
    ensures Left([], Expected([], chunks)) == Tail(Concat(chunks))
  {
    ExpectedWhole([], chunks);
    assert [] + Concat(chunks) == Concat(chunks);
  }

  /** Request and response: no read brings bytes behind a packet it completes, or a packet short of its last digit. */
  predicate Lockstep(buf: seq<byte>, chunks: seq<seq<byte>>)
    decreases |chunks|
  {
    chunks == [] ||
    (EndsWithPacket(buf + chunks[0]) && Lockstep(Tail(buf + chunks[0]), chunks[1..]))
  }

  /** Reads for which the framer is right, whatever the memory behind the buffer. */
  ghost predicate FramerRight(rule: PopRule, chunks: seq<seq<byte>>)
  {
    rule == Corrected || Lockstep([], chunks)
  }

  lemma {:induction false} ConcatSnoc(chunks: seq<seq<byte>>, c: seq<byte>)
    ensures Concat(chunks + [c]) == Concat(chunks) + c
  {
    if chunks == [] {
      assert [c][1..] == [] && c + [] == c;
    } else {
      assert (chunks + [c])[1..] == chunks[1..] + [c];
      ConcatSnoc(chunks[1..], c);
      Reassociate(chunks[0], Concat(chunks[1..]), c);
    }
  }

  lemma {:induction false} LockstepSnoc(buf: seq<byte>, chunks: seq<seq<byte>>, c: seq<byte>)
    requires Unfinished(buf)
    ensures Lockstep(buf, chunks + [c]) <==> Lockstep(buf, chunks) && EndsWithPacket(Tail(buf + Concat(chunks)) + c)
    decreases |chunks|
  {
    var all := chunks + [c];
    if chunks == [] {
      assert all[1..] == [] && buf + [] == buf;
      UnfinishedTail(buf);
    } else {
      var s, more := buf + chunks[0], Concat(chunks[1..]);
      assert all[1..] == chunks[1..] + [c];
      TailUnfinished(s);
      LockstepSnoc(Tail(s), chunks[1..], c);
      FramesAppend(s, more);
      Reassociate(buf, chunks[0], more);
    }
  }

  lemma SingleFrame(f: seq<byte>)
    requires IsFrame(f)
    ensures Frames(f) == [f] && Tail(f) == []
  {
    GapThenFrame([], f, []);
    assert [] + (f + []) == f;
    UnfinishedTail([]);
  }
}
