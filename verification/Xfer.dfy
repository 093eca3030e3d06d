/** `qXfer:features:read:target.xml` of src/gdbstub.c: a document served piece by piece. */
module Xfer {
  import opened Bytes
  import opened Connection
  import opened Protocol

  /** include/conn.h */
  const MAX_DATA_PAYLOAD := MAX_SEND_PACKET_SIZE - (2 + CSUM_SIZE + 2)

  const MORE: byte := 0x6d
  const LAST: byte := 0x6c

  /** `Undefined`: the source reads beyond the document, or sends a buffer it did not fill. */
  datatype XferReply = Undefined | Sent(text: seq<byte>)

  /** The reply to a request for `length` bytes from `offset` on; one of them is taken by the NUL. */
  function Piece(desc: seq<byte>, offset: int, length: int): (r: XferReply)
  {
    if !(0 <= offset <= |desc|) || length < 1 then Undefined
    else
      var payloadLength := if MAX_DATA_PAYLOAD > length then length else MAX_DATA_PAYLOAD;
      var left := |desc| - offset;
      if left < payloadLength then Sent([LAST] + desc[offset..])
      else Sent([MORE] + desc[offset..offset + payloadLength - 1])
  }

  function PieceText(r: XferReply): Option<seq<byte>>
  {
    match r
    case Undefined => None
    case Sent(text) => Some(text)
  }

  /**
   * `process_xfer` with the parsed numbers: the marker, then snprintf into the rest of the buffer.
   * One reply on every path that does not end the program.
   */
  method ProcessXfer(conn: Conn, desc: seq<byte>, offset: int, length: int) returns (ok: bool)
    requires 0 !in desc
    modifies conn`out
    ensures var text := PieceText(Piece(desc, offset, length));
      ok == text.Some? && conn.out == old(conn.out) + Logged(text)
  {
    if !(0 <= offset <= |desc|) || length < 1 {
      return false;
    }
    var buf := new byte[MAX_SEND_PACKET_SIZE](i => 0);
    var totalLen := |desc|;
    var payloadLength := if MAX_DATA_PAYLOAD > length then length else MAX_DATA_PAYLOAD;
    var marker := if totalLen - offset < payloadLength then LAST else MORE;
    buf[0] := marker;
    var n := Snprintf(buf, 1, payloadLength, desc, offset);
    SentString(buf[..], marker, desc, offset, offset + n);
    PieceIs(desc, offset, length, payloadLength, n);
    ReplySendable(desc, offset, length);
    var text := CString(buf);
    ok := conn.SendPktStr(text);
  }

  /** The piece in terms of how much snprintf copies. */
  lemma PieceIs(desc: seq<byte>, offset: nat, length: int, payloadLength: int, n: nat)
    requires offset <= |desc| && length >= 1
    requires payloadLength == if MAX_DATA_PAYLOAD > length then length else MAX_DATA_PAYLOAD
    requires n == if |desc| - offset < payloadLength then |desc| - offset else payloadLength - 1
    ensures Piece(desc, offset, length)
         == Sent([if |desc| - offset < payloadLength then LAST else MORE] + desc[offset..offset + n])
  {
  }

  /** snprintf(buf + at, size, "%s", s + from): at most `size - 1` characters, and a NUL. */
  method Snprintf(buf: array<byte>, at: nat, size: nat, s: seq<byte>, from: nat) returns (n: nat)
    requires size >= 1 && at + size <= buf.Length && from <= |s|
    modifies buf
    ensures n == if |s| - from < size then |s| - from else size - 1
    ensures buf[..at] == old(buf[..at]) && buf[at..at + n + 1] == s[from..from + n] + [0]
  {
    n := if |s| - from < size then |s| - from else size - 1;
    forall i | 0 <= i < n {
      buf[at + i] := s[from + i];
    }
    buf[at + n] := 0;
    CopiedText(buf[..], at, s, from, n);
    assert buf[..][at..at + n + 1] == buf[at..at + n + 1];
  }

  lemma CopiedText(buf: seq<byte>, at: nat, s: seq<byte>, from: nat, n: nat)
    requires at + n < |buf| && from + n <= |s| && buf[at + n] == 0
    requires forall i :: at <= i < at + n ==> buf[i] == s[i - at + from]
    ensures buf[at..at + n + 1] == s[from..from + n] + [0]
  {
  }

  lemma SentString(buf: seq<byte>, marker: byte, desc: seq<byte>, lo: nat, hi: nat)
    requires lo <= hi <= |desc| && 0 !in desc && marker != 0 && hi - lo + 2 <= |buf|
    requires buf[0] == marker && buf[1..hi - lo + 2] == desc[lo..hi] + [0]
    ensures 0 in buf && CStr(buf) == [marker] + desc[lo..hi]
  {
    var text := [marker] + desc[lo..hi];
    assert buf[..hi - lo + 2] == [buf[0]] + buf[1..hi - lo + 2];
    assert buf[..|text| + 1] == text + [0];
    assert forall b :: b in desc[lo..hi] ==> b in desc;
    StringOf(buf, text);
  }

  /** Every reply fits the sender's assertion, and stays free of '#' if the document is. */
  lemma ReplySendable(desc: seq<byte>, offset: int, length: int)
    ensures var r := Piece(desc, offset, length);
      r.Sent? ==> Sendable(r.text) && (HASH !in desc ==> HASH !in r.text)
  {
    var r := Piece(desc, offset, length);
    if r.Sent? {
      assert forall b :: b in r.text[1..] ==> b in desc;
      assert r.text == [r.text[0]] + r.text[1..];
    }
  }

  /** The last-piece marker comes exactly with everything that was left; otherwise something remains. */
  lemma MarkerExact(desc: seq<byte>, offset: int, length: int)
    requires 0 <= offset <= |desc| && length >= 1
    ensures var r := Piece(desc, offset, length);
      && r.Sent? && r.text != []
      && r.text[1..] == desc[offset..offset + |r.text| - 1]
      && (r.text[0] == LAST <==> offset + |r.text| - 1 == |desc|)
      && (r.text[0] == MORE || r.text[0] == LAST)
  {
  }

  /** A piece makes progress, or is the last one, exactly when at least two bytes were asked for or nothing was left. */
  lemma ProgressExact(desc: seq<byte>, offset: int, length: int)
    requires 0 <= offset <= |desc| && length >= 1
    ensures var r := Piece(desc, offset, length);
      r.Sent? && (|r.text| > 1 || r.text[0] == LAST <==> length >= 2 || offset == |desc|)
  {
  }

  /** A client that asks for `lengths[0]`, `lengths[1]`, ... bytes from where it is until it sees the last piece. */
  function Fetch(desc: seq<byte>, offset: nat, lengths: seq<int>): (r: (seq<byte>, bool))
    requires offset <= |desc|
    decreases |lengths|
  {
    if lengths == [] then ([], false)
    else
      var reply := Piece(desc, offset, lengths[0]);
      if reply == Undefined then ([], false)
      else
        var piece := reply.text[1..];
        if reply.text[0] == LAST then (piece, true)
        else
          var (rest, done) := Fetch(desc, offset + |piece|, lengths[1..]);
          (piece + rest, done)
  }

  /**
   * Whatever lengths of at least two the client asks for, what it has gathered is the next part of
   * the document, all of it exactly when the last piece came, and that happens within as many
   * requests as there are bytes left, plus one.
   */
  lemma {:induction false} FetchRight(desc: seq<byte>, offset: nat, lengths: seq<int>)
    requires offset <= |desc| && forall n :: n in lengths ==> n >= 2
    ensures var (got, done) := Fetch(desc, offset, lengths);
      && offset + |got| <= |desc| && got == desc[offset..offset + |got|]
      && (done <==> lengths != [] && offset + |got| == |desc|)
      && (|lengths| > |desc| - offset ==> done)
    decreases |lengths|
  {
    if lengths != [] {
      assert lengths[0] in lengths && forall n :: n in lengths[1..] ==> n in lengths;
      MarkerExact(desc, offset, lengths[0]);
      ProgressExact(desc, offset, lengths[0]);
      var text := Piece(desc, offset, lengths[0]).text;
      if text[0] != LAST {
        var next := offset + |text| - 1;
        FetchRight(desc, next, lengths[1..]);
        FetchStep(desc, offset, lengths, text[1..], next);
      }
    }
  }

  lemma FetchStep(desc: seq<byte>, offset: nat, lengths: seq<int>, piece: seq<byte>, next: nat)
    requires lengths != [] && offset <= next <= |desc| && piece == desc[offset..next]
    requires Piece(desc, offset, lengths[0]) == Sent([MORE] + piece)
    requires var (rest, _) := Fetch(desc, next, lengths[1..]);
      next + |rest| <= |desc| && rest == desc[next..next + |rest|]
    ensures var (rest, done) := Fetch(desc, next, lengths[1..]);
      Fetch(desc, offset, lengths) == (desc[offset..next + |rest|], done)
  {
    assert ([MORE] + piece)[1..] == piece;
    var (rest, _) := Fetch(desc, next, lengths[1..]);
    JoinPieces(desc, offset, next, next + |rest|);
  }

  lemma JoinPieces(desc: seq<byte>, a: nat, b: nat, c: nat)
    requires a <= b <= c <= |desc|
    ensures desc[a..b] + desc[b..c] == desc[a..c]
  {
  }

  /** The whole document, from offset 0. */
  lemma Reassembly(desc: seq<byte>, lengths: seq<int>)
    requires |lengths| > |desc| && forall n :: n in lengths ==> n >= 2
    ensures Fetch(desc, 0, lengths) == (desc, true)
  {
    FetchRight(desc, 0, lengths);
    assert desc[0..|desc|] == desc;
  }

  /** A client that asks for single bytes never gets anywhere. */
  lemma {:induction false} SingleBytesStall(desc: seq<byte>, offset: nat, lengths: seq<int>)
    requires offset < |desc| && forall n :: n in lengths ==> n == 1
    ensures Fetch(desc, offset, lengths) == ([], false)
    decreases |lengths|
  {
    if lengths != [] {
      assert lengths[0] in lengths && forall n :: n in lengths[1..] ==> n in lengths;
      assert desc[offset..offset] == [];
      SingleBytesStall(desc, offset, lengths[1..]);
      FetchStep(desc, offset, lengths, [], offset);
    }
  }
}
