/** The `g` command of src/gdbstub.c as written: each register's hex goes to its index times its own width. */
module RegisterRead {
  import opened Bytes
  import opened Codec
  import opened Connection
  import opened Registers
  import opened Protocol

  /** Where `process_reg_read` puts register `i`, in bytes of register storage. */
  function Place(widths: seq<nat>, i: nat): nat
    requires i < |widths|
  {
    i * widths[i]
  }

  /** Every register's digits and their NUL lie within the packet buffer. */
  ghost predicate Fits(widths: seq<nat>, size: nat)
  {
    forall i :: 0 <= i < |widths| ==> 2 * Place(widths, i) + 2 * widths[i] < size
  }

  /** The packet buffer after the first `k` registers were written into it. */
  ghost function Layout(init: seq<byte>, widths: seq<nat>, regs: seq<seq<byte>>, k: nat): (s: seq<byte>)
    requires WellSized(widths, regs) && Fits(widths, |init|) && k <= |widths|
    ensures |s| == |init|
  {
    if k == 0 then init
    else
      assert |regs[k - 1]| == widths[k - 1];
      Splice(Layout(init, widths, regs, k - 1), 2 * Place(widths, k - 1), HexEncode(regs[k - 1]) + [0])
  }

  datatype RegReply = Hex(text: seq<byte>) | Error(code: int32) | Uninitialised

  /** The C string the buffer holds, or the first read error. With no registers the buffer was never written. */
  ghost function RegRead(init: seq<byte>, widths: seq<nat>, regs: seq<seq<byte>>, codes: Codes, calls: nat): RegReply
    requires WellSized(widths, regs) && Fits(widths, |init|)
  {
    var n := |widths|;
    var k := FirstFailure(codes, calls, n);
    if k < n then Error(Code(codes, calls + k))
    else if n == 0 then Uninitialised
    else Hex(CStr(Layout(init, widths, regs, n)))
  }

  /** What is sent: nothing when the buffer is not a string, or too long for the sender's assertion. */
  function RegText(reply: RegReply): Option<seq<byte>>
  {
    match reply
    case Hex(text) => if Sendable(text) then Some(text) else None
    case Error(code) => Some(ErrorText(code))
    case Uninitialised => None
  }

  /** The buffer holds the first `i` registers, and a NUL if there are any. */
  ghost predicate Placed(init: seq<byte>, widths: seq<nat>, regs: seq<seq<byte>>, i: nat, s: seq<byte>)
    requires WellSized(widths, regs) && Fits(widths, |init|) && i <= |widths|
  {
    s == Layout(init, widths, regs, i) && (i > 0 ==> 0 in s)
  }

  /** One round of the loop: read register `i` and put its hex in its place. */
  method PlaceOne(t: Target, packetStr: array<byte>, i: nat, ghost init: seq<byte>) returns (ret: int32)
    requires t.Valid() && Fits(t.widths, |init|) && i < |t.widths|
    requires Placed(init, t.widths, t.regs, i, packetStr[..])
    modifies t`calls, packetStr
    ensures t.calls == old(t.calls) + 1 && ret == Code(t.codes, old(t.calls))
    ensures ret == 0 ==> Placed(init, t.widths, t.regs, i + 1, packetStr[..])
  {
    var value;
    ret, value := t.ReadReg(i);
    if ret != 0 {
      return;
    }
    assert |t.regs[i]| == t.widths[i];
    HexToStr(value, packetStr, 2 * Place(t.widths, i));
    assert packetStr[..][2 * Place(t.widths, i) + 2 * t.widths[i]] == 0;
  }

  /** The loop of `process_reg_read`: the first read error, or 0. */
  method PlaceAll(t: Target, packetStr: array<byte>) returns (ret: int32)
    requires t.Valid() && Fits(t.widths, packetStr.Length)
    modifies t`calls, packetStr
    ensures var k := FirstFailure(t.codes, old(t.calls), |t.widths|);
      if k < |t.widths| then ret == Code(t.codes, old(t.calls) + k) != 0
      else ret == 0 && Placed(old(packetStr[..]), t.widths, t.regs, |t.widths|, packetStr[..])
  {
    ghost var n, from, init := |t.widths|, t.calls, packetStr[..];
    ghost var k := FirstFailure(t.codes, from, n);
    var i := 0;
    while i < |t.widths|
      invariant 0 <= i <= k && t.calls == from + i
      invariant Placed(init, t.widths, t.regs, i, packetStr[..])
    {
      FailsAt(t.codes, from, n, i);
      ret := PlaceOne(t, packetStr, i, init);
      if ret != 0 {
        assert i == k;
        return;
      }
      i := i + 1;
    }
    ret := 0;
  }

  /** `process_reg_read`: one reply on every path that does not end the program. */
  method ProcessRegRead(t: Target, conn: Conn) returns (ok: bool, ghost init: seq<byte>)
    requires t.Valid() && Fits(t.widths, MAX_SEND_PACKET_SIZE)
    modifies t`calls, conn`out
    ensures |init| == MAX_SEND_PACKET_SIZE
    ensures var text := RegText(RegRead(init, t.widths, t.regs, t.codes, old(t.calls)));
      ok == text.Some? && conn.out == old(conn.out) + Logged(text)
  {
    var packetStr := new byte[MAX_SEND_PACKET_SIZE];
    init := packetStr[..];
    var ret := PlaceAll(t, packetStr);
    if ret != 0 {
      conn.SendError(ret);
      return true, init;
    }
    if |t.widths| == 0 {
      return false, init;
    }
    var text := CString(packetStr);
    ok := conn.SendPktStr(text);
  }

  /** A `g` with a register that cannot be read is answered with the first error, whatever was read before. */
  lemma ReadErrorExact(init: seq<byte>, widths: seq<nat>, regs: seq<seq<byte>>, codes: Codes, calls: nat, k: nat)
    requires WellSized(widths, regs) && Fits(widths, |init|) && FailsFirst(codes, calls, calls + |widths|, k)
    ensures RegText(RegRead(init, widths, regs, codes, calls)) == Some(ErrorText(Code(codes, k)))
  {
    FirstIs(codes, calls, |widths|, k);
  }

  /** When the first registers are placed where `G` expects them, the buffer starts with their hex and a NUL. */
  lemma {:induction false} PlacedInOrder(init: seq<byte>, widths: seq<nat>, regs: seq<seq<byte>>, k: nat)
    requires WellSized(widths, regs) && Fits(widths, |init|) && 0 < k <= |widths|
    requires forall i :: 0 <= i < k ==> Place(widths, i) == Offset(widths, i)
    ensures 2 * Offset(widths, k) < |init| && |HexEncode(Flatten(regs, k))| == 2 * Offset(widths, k)
    ensures Layout(init, widths, regs, k)[..2 * Offset(widths, k) + 1] == HexEncode(Flatten(regs, k)) + [0]
  {
    FlattenLength(widths, regs, k);
    FlattenLength(widths, regs, k - 1);
    HexEncodeAppend(Flatten(regs, k - 1), regs[k - 1]);
    var at, out := 2 * Place(widths, k - 1), HexEncode(regs[k - 1]) + [0];
    assert |regs[k - 1]| == widths[k - 1];
    var before := Layout(init, widths, regs, k - 1);
    if k > 1 {
      PlacedInOrder(init, widths, regs, k - 1);
      assert before[..at] == before[..at + 1][..at] == HexEncode(Flatten(regs, k - 1));
    } else {
      assert Place(widths, 0) == 0 && before[..0] == HexEncode(Flatten(regs, 0));
    }
    PrefixOfSplice(before, at, out);
    Reassemble(HexEncode(Flatten(regs, k - 1)), HexEncode(regs[k - 1]));
  }

  lemma PrefixOfSplice(s: seq<byte>, at: nat, out: seq<byte>)
    requires at + |out| <= |s|
    ensures Splice(s, at, out)[..at + |out|] == s[..at] + out
  {
  }

  lemma Reassemble(a: seq<byte>, b: seq<byte>)
    ensures a + (b + [0]) == a + b + [0]
  {
  }

  lemma UniformPlaces(widths: seq<nat>, n: nat)
    requires n <= |widths| && forall j :: 0 <= j < n ==> widths[j] == widths[0]
    ensures forall i :: 0 <= i < n ==> Place(widths, i) == Offset(widths, i)
  {
    forall i | 0 <= i < n ensures Place(widths, i) == Offset(widths, i) {
      UniformPrefix(widths, i);
    }
  }

  /** For uniform widths the reply is the hex of all registers in order. */
  lemma UniformReply(init: seq<byte>, widths: seq<nat>, regs: seq<seq<byte>>)
    requires WellSized(widths, regs) && Fits(widths, |init|) && |widths| > 0 && Uniform(widths)
    ensures CStr(Layout(init, widths, regs, |widths|)) == HexEncode(Flatten(regs, |regs|))
  {
    var n := |widths|;
    UniformPlaces(widths, n);
    PlacedInOrder(init, widths, regs, n);
    var text := HexEncode(Flatten(regs, n));
    NoNulInHex(Flatten(regs, n));
    StringOf(Layout(init, widths, regs, n), text);
  }

  // ---------------------------------------------------------------- other widths

  const ONE: byte := 0x31

  /** Register contents that tell register `r` from all others: 0x11 throughout against zero. */
  function Marked(widths: seq<nat>, r: nat): (regs: seq<seq<byte>>)
    ensures |regs| == |widths|
  {
    seq(|widths|, j requires 0 <= j < |widths| => Fill(if j == r then 0x11 else 0, widths[j]))
  }

  function Fill(b: byte, n: nat): (s: seq<byte>)
    ensures |s| == n && forall i :: 0 <= i < n ==> s[i] == b
  {
    if n == 0 then [] else Fill(b, n - 1) + [b]
  }

  lemma FillDigits(b: byte, n: nat, c: nat)
    requires c < 2 * n && (b == 0x11 || b == 0)
    ensures HexEncode(Fill(b, n))[c] == if b == 0x11 then ONE else 0x30
  {
    HexEncodeAt(Fill(b, n), c / 2);
    assert c == 2 * (c / 2) || c == 2 * (c / 2) + 1;
  }

  /** Registers other than `r` never put a '1' into a cell. */
  lemma {:induction false} NeverOne(init: seq<byte>, widths: seq<nat>, r: nat, m: nat, n: nat, c: nat)
    requires WellSized(widths, Marked(widths, r)) && Fits(widths, |init|) && m <= n <= |widths| && c < |init|
    requires r < m || n <= r
    requires Layout(init, widths, Marked(widths, r), m)[c] != ONE
    ensures Layout(init, widths, Marked(widths, r), n)[c] != ONE
    decreases n
  {
    if m < n {
      NeverOne(init, widths, r, m, n - 1, c);
      var at, b := 2 * Place(widths, n - 1), HexEncode(Marked(widths, r)[n - 1]) + [0];
      SpliceCell(Layout(init, widths, Marked(widths, r), n - 1), at, b, c);
      if at <= c < at + 2 * widths[n - 1] {
        FillDigits(0, widths[n - 1], c - at);
      }
    }
  }

  lemma SpliceCell(s: seq<byte>, at: nat, out: seq<byte>, c: nat)
    requires at + |out| <= |s| && c < |s|
    ensures Splice(s, at, out)[c] == if at <= c < at + |out| then out[c - at] else s[c]
  {
  }

  /** The reply should show a '1' in every cell of register `r`. */
  lemma ExpectedOne(widths: seq<nat>, r: nat, c: nat)
    requires r < |widths| && WellSized(widths, Marked(widths, r))
    requires 2 * Offset(widths, r) <= c < 2 * Offset(widths, r) + 2 * widths[r]
    ensures var text := HexEncode(Flatten(Marked(widths, r), |widths|)); c < |text| && text[c] == ONE
  {
    var regs := Marked(widths, r);
    FieldOfHex(widths, regs, r, |widths|);
    FillDigits(0x11, widths[r], c - 2 * Offset(widths, r));
    var text, lo := HexEncode(Flatten(regs, |widths|)), 2 * Offset(widths, r);
    assert text[lo..lo + 2 * widths[r]][c - lo] == text[c];
  }

  /** A register wider than the ones before it leaves a NUL where its own digits should start. */
  lemma WiderWrong(init: seq<byte>, widths: seq<nat>, i: nat)
    requires Fits(widths, |init|) && 0 < i < |widths| && widths[i] > widths[0]
    requires forall j :: 0 <= j < i ==> widths[j] == widths[0]
    requires WellSized(widths, Marked(widths, i))
    ensures 2 * Offset(widths, i) < |init|
    ensures Layout(init, widths, Marked(widths, i), i + 1)[2 * Offset(widths, i)] == 0
  {
    var regs, c := Marked(widths, i), 2 * Offset(widths, i);
    UniformPrefix(widths, i);
    UniformPlaces(widths, i);
    PlacedInOrder(init, widths, regs, i);
    var before := Layout(init, widths, regs, i);
    assert before[c] == before[..c + 1][c] == 0;
    ScaleLess(i, widths[0], widths[i]);
    SpliceCell(before, 2 * Place(widths, i), HexEncode(regs[i]) + [0], c);
  }

  /** A register narrower than the ones before it overwrites digits of one of them. */
  lemma NarrowerWrong(init: seq<byte>, widths: seq<nat>, i: nat, r: nat)
    requires Fits(widths, |init|) && 0 < i < |widths| && r < i
    requires WellSized(widths, Marked(widths, r))
    ensures Layout(init, widths, Marked(widths, r), i + 1)[2 * Place(widths, i)] != ONE
  {
    var regs, at := Marked(widths, r), 2 * Place(widths, i);
    SpliceCell(Layout(init, widths, regs, i), at, HexEncode(regs[i]) + [0], at);
    if widths[i] > 0 {
      FillDigits(0, widths[i], 0);
    }
  }

  /** A register that is wider or narrower than the ones before it leaves some cell wrong for good. */
  lemma WrongCell(init: seq<byte>, widths: seq<nat>, i: nat) returns (r: nat, c: nat)
    requires Fits(widths, |init|) && 0 < i < |widths| && widths[i] != widths[0]
    requires forall j :: 0 <= j < i ==> widths[j] == widths[0]
    ensures r <= i && c < |init| && WellSized(widths, Marked(widths, r))
    ensures 2 * Offset(widths, r) <= c < 2 * Offset(widths, r) + 2 * widths[r]
    ensures Layout(init, widths, Marked(widths, r), i + 1)[c] != ONE
  {
    if widths[i] > widths[0] {
      r, c := i, 2 * Offset(widths, i);
      MarkedSized(widths, r);
      WiderWrong(init, widths, i);
    } else {
      c := 2 * Place(widths, i);
      r := RegisterAt(widths[0], widths[i], i);
      UniformPrefix(widths, r);
      MarkedSized(widths, r);
      NarrowerWrong(init, widths, i, r);
    }
  }

  lemma MarkedSized(widths: seq<nat>, r: nat)
    ensures WellSized(widths, Marked(widths, r))
  {
  }

  lemma ScaleLess(i: nat, a: nat, b: nat)
    requires i > 0 && a < b
    ensures i * a < i * b
  {
    assert i * b == i * a + i * (b - a);
  }

  lemma CancelLess(a: nat, b: nat, w: nat)
    requires a * w < b * w
    ensures a < b
  {
    assert a * w == b * w + (a - b) * w;
  }

  /** The register of width `w` that byte `i * v` falls into, for a narrower `v`. */
  lemma RegisterAt(w: nat, v: nat, i: nat) returns (r: nat)
    requires v < w && i > 0
    ensures r < i && r * w <= i * v < r * w + w
  {
    r := 0;
    ScaleLess(i, v, w);
    while r * w + w <= i * v
      invariant r * w <= i * v && r < i
      decreases i - r
    {
      assert (r + 1) * w == r * w + w;
      CancelLess(r + 1, i, w);
      r := r + 1;
    }
  }

  /** `g` answers with the registers' hex in order, for all register contents, exactly when the widths are uniform. */
  lemma ReplyRightIffUniform(widths: seq<nat>, init: seq<byte>)
    requires |widths| > 0 && Fits(widths, |init|)
    ensures (forall regs :: WellSized(widths, regs) ==>
               CStr(Layout(init, widths, regs, |widths|)) == HexEncode(Flatten(regs, |regs|))) <==> Uniform(widths)
  {
    if Uniform(widths) {
      forall regs | WellSized(widths, regs)
        ensures CStr(Layout(init, widths, regs, |widths|)) == HexEncode(Flatten(regs, |regs|))
      {
        UniformReply(init, widths, regs);
      }
    } else {
      var i := FirstOdd(widths);
      var r, c := WrongCell(init, widths, i);
      var regs := Marked(widths, r);
      NeverOne(init, widths, r, i + 1, |widths|, c);
      ExpectedOne(widths, r, c);
      var s := Layout(init, widths, regs, |widths|);
      assert c < |CStr(s)| ==> CStr(s)[c] == s[c];
    }
  }

  /** An input: a two-byte register and a one-byte register behind it; the second is put into the first. */
  lemma UnevenReplyWrong(init: seq<byte>)
    requires |init| >= 5 && Fits([2, 1], |init|)
    ensures var regs: seq<seq<byte>> := [[0x11, 0x22], [0x33]];
      WellSized([2, 1], regs) && CStr(Layout(init, [2, 1], regs, 2)) != HexEncode(Flatten(regs, 2))
  {
    var widths: seq<nat> := [2, 1];
    var regs: seq<seq<byte>> := [[0x11, 0x22], [0x33]];
    FlattenLength(widths, regs, 2);
    assert Offset(widths, 1) == 2 && Offset(widths, 2) == 3;
    assert Place(widths, 0) == 0 && Place(widths, 1) == 1;
    var first, s := Layout(init, widths, regs, 1), Layout(init, widths, regs, 2);
    SpliceCell(first, 2, HexEncode(regs[1]) + [0], 4);
    assert s[4] == 0;
  }

  /** Sending the `g` reply back as `G` changes no register, for uniform widths. */
  lemma ReadThenWriteBack(init: seq<byte>, widths: seq<nat>, regs: seq<seq<byte>>, hasMemory: bool, codes: Codes,
                          calls: nat)
    requires WellSized(widths, regs) && Fits(widths, |init|) && |widths| > 0 && Uniform(widths)
    ensures RegWrite(widths, regs, CStr(Layout(init, widths, regs, |widths|)), hasMemory, codes, calls).1 == regs
  {
    UniformReply(init, widths, regs);
    WriteBackIsNeutral(widths, regs, hasMemory, codes, calls);
  }

  /** After a successful `G`, `g` answers with its payload in lower case exactly when that was all hex digits. */
  lemma WriteThenRead(init: seq<byte>, widths: seq<nat>, olds: seq<seq<byte>>, payload: seq<byte>, codes: Codes,
                      calls: nat)
    requires |olds| == |widths| && TotalBytes(widths) > 0 && |payload| == 2 * TotalBytes(widths)
    requires Fits(widths, |init|) && Uniform(widths)
    requires RegWrite(widths, olds, payload, true, codes, calls).0 == Ok
    ensures var regs := RegWrite(widths, olds, payload, true, codes, calls).1;
      WellSized(widths, regs) && (CStr(Layout(init, widths, regs, |widths|)) == Lower(payload)
        <==> AllHexDigits(payload))
  {
    ParsedWellSized(widths, payload);
    UniformReply(init, widths, Parsed(widths, payload, |widths|));
    ReadAfterWrite(widths, olds, payload, codes, calls);
  }

  lemma ParsedWellSized(widths: seq<nat>, payload: seq<byte>)
    requires |payload| == 2 * TotalBytes(widths)
    ensures WellSized(widths, Parsed(widths, payload, |widths|))
  {
    forall i | 0 <= i < |widths| ensures |Parsed(widths, payload, |widths|)[i]| == widths[i] {
      ParsedAt(widths, payload, |widths|, i);
    }
  }
}
