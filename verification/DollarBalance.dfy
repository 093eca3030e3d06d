/**
 * The '$' that the moves of src/packet.c as written drop and bring in. The framer can be right only if they
 * balance; a packet that touches the one before loses its '$', so a stale one has to make up for it.
 */
module DollarBalance {
  import opened Bytes
  import opened Framing
  import opened ArrayFramer
  import opened StaleMemory

  function One(b: byte): nat
  {
    if b == DOLLAR then 1 else 0
  }

  function Dollars(s: seq<byte>): nat
  {
    if s == [] then 0 else One(s[0]) + Dollars(s[1..])
  }

  function AllDollars(frames: seq<seq<byte>>): nat
  {
    if frames == [] then 0 else Dollars(frames[0]) + AllDollars(frames[1..])
  }

  lemma {:induction false} DollarsAppend(a: seq<byte>, b: seq<byte>)
    ensures Dollars(a + b) == Dollars(a) + Dollars(b)
  {
    if a == [] {
      assert a + b == b;
    } else {
      assert (a + b)[1..] == a[1..] + b;
      DollarsAppend(a[1..], b);
    }
  }

  lemma {:induction false} NoDollars(s: seq<byte>)
    requires DOLLAR !in s
    ensures Dollars(s) == 0
  {
    if s != [] { NoDollars(s[1..]); }
  }

  /** Skipping to the first '$' skips none. */
  lemma DollarsSkip(s: seq<byte>)
    ensures Dollars(SkipToDollar(s)) == Dollars(s)
  {
    var i := IndexOf(s, DOLLAR);
    assert s == s[..i] + s[i..];
    NoDollars(s[..i]);
    DollarsAppend(s[..i], s[i..]);
  }

  lemma DollarsSplit(t: seq<byte>, n: nat)
    requires n <= |t|
    ensures Dollars(t) == Dollars(t[..n]) + Dollars(t[n..])
  {
    assert t == t[..n] + t[n..];
    DollarsAppend(t[..n], t[n..]);
  }

  /** The grammar keeps every '$', in its frames and its tail. */
  lemma {:induction false} GrammarDollars(s: seq<byte>)
    ensures AllDollars(Frames(s)) + Dollars(Tail(s)) == Dollars(s)
    decreases |s|
  {
    var t := SkipToDollar(s);
    DollarsSkip(s);
    if HasFrame(t) {
      var n := FrameLength(t);
      GrammarStep(s, t, n);
      GrammarDollars(t[n..]);
      DollarsSplit(t, n);
      assert Frames(s)[1..] == Frames(t[n..]);
    }
  }

  // ---------------------------------------------------------------- what the moves do

  /** How many '$' the moves of one drain drop behind packets, and bring in from behind the buffer. */
  datatype Flow = Flow(dropped: nat, brought: nat)

  function Moves(v: seq<byte>, past: Option<byte>): Flow
    decreases |v|
  {
    var t := SkipToDollar(v);
    if !Complete(AsWritten, t) then Flow(0, 0)
    else
      match Take(AsWritten, t, PastSkip(v, past))
      case Undefined => Flow(0, 0)
      case Took(frame, moved) =>
        var more := Moves(moved, Some(t[|moved|]));
        if moved == [] then more
        else Flow(One(t[FrameLength(t)]) + more.dropped, One(moved[|moved| - 1]) + more.brought)
  }

  lemma MovesTook(v: seq<byte>, past: Option<byte>, t: seq<byte>, q: byte, length: nat, moved: seq<byte>, stale: byte)
    requires t == SkipToDollar(v) && Complete(AsWritten, t) && length == FrameLength(t) < |t|
    requires PastSkip(v, past) == Some(q) && moved == t[length..][1..] + [q] && stale == t[|t| - length]
    ensures var more := Moves(moved, Some(stale));
      Moves(v, past) == Flow(One(t[length]) + more.dropped, One(q) + more.brought)
  {
    TakeMoves(t, Some(q), length, t[length..]);
    assert |moved| == |t| - length;
  }

  lemma MovesWhole(v: seq<byte>, past: Option<byte>, t: seq<byte>, length: nat)
    requires t == SkipToDollar(v) && Complete(AsWritten, t) && length == FrameLength(t) == |t|
    ensures Moves(v, past) == Flow(0, 0)
  {
    TakeWhole(t, PastSkip(v, past), length);
    assert SkipToDollar([]) == [];
  }

  predicate Balanced(d: Drained, n: nat, f: Flow)
  {
    d == Lost || AllDollars(d.frames) + Dollars(d.tail) + f.dropped == n + f.brought
  }

  lemma BalancedPrefixed(frame: seq<byte>, d: Drained, n: nat, f: Flow, c: byte, q: byte, m: nat)
    requires Balanced(d, n, f) && m + One(q) == Dollars(frame) + One(c) + n
    ensures Balanced(Prefixed(frame, d), m, Flow(One(c) + f.dropped, One(q) + f.brought))
  {
    if d != Lost { assert ([frame] + d.frames)[1..] == d.frames; }
  }

  lemma MovedDollars(t: seq<byte>, n: nat, q: byte, moved: seq<byte>)
    requires n < |t| && moved == t[n..][1..] + [q]
    ensures Dollars(t) + One(q) == Dollars(t[..n]) + One(t[n]) + Dollars(moved)
  {
    DollarsSplit(t, n);
    DollarsAppend(t[n..][1..], [q]);
    assert [q][1..] == [];
  }

  /** What comes out and what is dropped is what was there and what is brought in. */
  lemma {:induction false} DrainBalances(v: seq<byte>, past: Option<byte>)
    ensures Balanced(DrainStale(AsWritten, v, past), Dollars(v), Moves(v, past))
    decreases |v|
  {
    var t := SkipToDollar(v);
    var n, q := FrameLength(t), PastSkip(v, past);
    DollarsSkip(v);
    if !Complete(AsWritten, t) || n > |t| {
      DrainStaleStep(AsWritten, v, past, t);
    } else if n == |t| {
      WholeBalances(v, past, t, n);
    } else if q == None {
      PopLost(v, t, past, n);
    } else {
      var moved, stale := t[n..][1..] + [q.value], t[|t| - n];
      PopMoves(v, t, past, n, t[n..], q.value, moved, stale);
      MovesTook(v, past, t, q.value, n, moved, stale);
      DrainBalances(moved, Some(stale));
      MovedDollars(t, n, q.value, moved);
      BalancedPrefixed(t[..n], DrainStale(AsWritten, moved, Some(stale)), Dollars(moved), Moves(moved, Some(stale)),
                       t[n], q.value, Dollars(v));
    }
  }

  lemma WholeBalances(v: seq<byte>, past: Option<byte>, t: seq<byte>, n: nat)
    requires t == SkipToDollar(v) && Complete(AsWritten, t) && n == FrameLength(t) == |t| && Dollars(t) == Dollars(v)
    ensures Balanced(DrainStale(AsWritten, v, past), Dollars(v), Moves(v, past))
  {
    PopWhole(v, t, past, n);
    MovesWhole(v, past, t, n);
    AloneDollars(t, t[..n]);
  }

  lemma AloneDollars(t: seq<byte>, frame: seq<byte>)
    requires frame == t
    ensures AllDollars([frame]) + Dollars([]) == Dollars(t)
  {
    assert [frame][1..] == [];
  }

  /** On any array: as written the framer can be right only if as many '$' are brought in as are dropped. */
  lemma RightBalances(b: Buffer)
    requires Sound(b) && DrainsRight(AsWritten, b)
    ensures var f := Moves(Contents(b), Past(b)); f.dropped == f.brought
  {
    RightRefines(AsWritten, b);
    DrainBalances(Contents(b), Past(b));
    GrammarDollars(Contents(b));
  }

  // ---------------------------------------------------------------- packets that touch

  predicate Drops(v: seq<byte>, past: Option<byte>)
  {
    DrainStale(AsWritten, v, past) == Lost || Moves(v, past).dropped >= 1
  }

  lemma DropsNext(u: seq<byte>, t: seq<byte>, g: seq<byte>, past: Option<byte>, q: byte, rest: seq<byte>, length: nat,
                  moved: seq<byte>, stale: Option<byte>)
    requires t == SkipToDollar(u) && HasFrame(t) && length == FrameLength(t) && rest == t[length..] && rest != []
    requires BroughtIn(u, t, g, past) == Some(q) && stale == Some(LeftBehind(t, g))
    requires moved == rest[1..] + (g + [q])
    ensures rest[0] == DOLLAR || Drops(moved, stale) ==> Drops(u + g, past)
  {
    PopNext(u, t, g, past, q, rest, length, moved, stale);
    MovesNext(u, t, g, past, q, rest, length, moved, stale.value, u + g, t + g);
  }

  lemma MovesNext(u: seq<byte>, t: seq<byte>, g: seq<byte>, past: Option<byte>, q: byte, rest: seq<byte>, length: nat,
                  moved: seq<byte>, stale: byte, v: seq<byte>, w: seq<byte>)
    requires t == SkipToDollar(u) && HasFrame(t) && length == FrameLength(t) && rest == t[length..] && rest != []
    requires BroughtIn(u, t, g, past) == Some(q) && stale == LeftBehind(t, g)
    requires moved == rest[1..] + (g + [q]) && v == u + g && w == t + g
    ensures Moves(v, past).dropped == One(rest[0]) + Moves(moved, Some(stale)).dropped
  {
    PopReady(u, t, g, past, q, rest, length, moved, stale, v, w, rest + g);
    MovesRest(v, past, w, q, length, rest + g, rest[0], moved, stale);
  }

  /** A pop that finds `t` at the front and `rest` behind the packet. */
  predicate PopsTo(v: seq<byte>, past: Option<byte>, t: seq<byte>, q: byte, length: nat, rest: seq<byte>, c: byte,
                   moved: seq<byte>, stale: byte)
  {
    && t == SkipToDollar(v) && Complete(AsWritten, t) && length == FrameLength(t) <= |t| && rest == t[length..]
    && rest != [] && rest[0] == c && PastSkip(v, past) == Some(q) && moved == rest[1..] + [q]
    && stale == t[|t| - length]
  }

  lemma PopReady(u: seq<byte>, t: seq<byte>, g: seq<byte>, past: Option<byte>, q: byte, rest: seq<byte>, length: nat,
                 moved: seq<byte>, stale: byte, v: seq<byte>, w: seq<byte>, x: seq<byte>)
    requires t == SkipToDollar(u) && HasFrame(t) && length == FrameLength(t) && rest == t[length..] && rest != []
    requires BroughtIn(u, t, g, past) == Some(q) && stale == LeftBehind(t, g)
    requires moved == rest[1..] + (g + [q]) && v == u + g && w == t + g && x == rest + g
    ensures PopsTo(v, past, w, q, length, x, rest[0], moved, stale)
  {
    PopGives(u, t, g, past, length, Some(q));
    MovesOn(rest, g, q);
  }

  lemma MovesRest(v: seq<byte>, past: Option<byte>, t: seq<byte>, q: byte, length: nat, rest: seq<byte>, c: byte,
                  moved: seq<byte>, stale: byte)
    requires PopsTo(v, past, t, q, length, rest, c, moved, stale)
    ensures Moves(v, past).dropped == One(c) + Moves(moved, Some(stale)).dropped
  {
    MovesTook(v, past, t, q, length, moved, stale);
  }

  lemma DropsLost(u: seq<byte>, t: seq<byte>, g: seq<byte>, past: Option<byte>, length: nat)
    requires t == SkipToDollar(u) && HasFrame(t) && length == FrameLength(t) && t[length..] != []
    requires BroughtIn(u, t, g, past) == None
    ensures Drops(u + g, past)
  {
    PopGives(u, t, g, past, length, None);
    PopLost(u + g, t + g, past, length);
  }

  lemma {:induction false} TouchingDrops(u: seq<byte>, g: seq<byte>, past: Option<byte>)
    requires !Spaced(u)
    ensures Drops(u + g, past)
    decreases |u|
  {
    var t := SkipToDollar(u);
    var n, q := FrameLength(t), BroughtIn(u, t, g, past);
    var rest := t[n..];
    SpacedStep(u, t, rest);
    if rest == [] {
      NothingIn([]);
    } else if q == None {
      DropsLost(u, t, g, past, n);
    } else {
      var moved, stale := rest[1..] + (g + [q.value]), Some(LeftBehind(t, g));
      if rest[0] != DOLLAR {
        GapByte(rest);
        TouchingDrops(rest[1..], g + [q.value], stale);
      }
      DropsNext(u, t, g, past, q.value, rest, n, moved, stale);
    }
  }

  /** So with packets that touch it can be right only if a stale '$' is brought in. */
  lemma TouchingNeedsStale(b: Buffer)
    requires Sound(b) && !Spaced(Contents(b)) && DrainsRight(AsWritten, b)
    ensures Moves(Contents(b), Past(b)).brought >= 1
  {
    TouchingDrops(Contents(b), [], Past(b));
    assert Contents(b) + [] == Contents(b);
    RightRefines(AsWritten, b);
    RightBalances(b);
  }
}
