/**
 * The `m`, `M` and `X` commands of src/gdbstub.c on the reference emulator. Addresses and lengths
 * come already parsed.
 */
module MemoryCommands {
  import opened Bytes
  import opened Codec
  import opened Connection
  import opened Riscv
  import opened Emulator
  import opened Protocol

  /** `Crash` stands for a failed assertion or undefined behaviour. */
  datatype MemReply = Hex(text: seq<byte>) | Ok | Error(code: int32) | Crash

  /** What is sent. */
  function MemText(reply: MemReply): Option<seq<byte>>
  {
    match reply
    case Hex(text) => Some(text)
    case Ok => Some(Ascii("OK"))
    case Error(code) => Some(ErrorText(code))
    case Crash => None
  }

  // ---------------------------------------------------------------- m

  function MemRead(mem: seq<byte>, addr: u64, len: u64): MemReply
    requires |mem| == MEM_SIZE
  {
    match CheckBounds(addr, len)
    case Refused => Error(EFAULT)
    case Outside => Crash
    case InRange =>
      var text := HexEncode(mem[addr..addr + len]);
      if Sendable(text) then Hex(text) else Crash
  }

  /** `process_mem_read`: one reply on every path that does not end the program. */
  method ProcessMemRead(e: Emu, conn: Conn, maddr: u64, mlen: u64) returns (ok: bool)
    requires e.Valid()
    modifies conn`out
    ensures var text := MemText(MemRead(e.m.mem, maddr, mlen));
      ok == text.Some? && conn.out == old(conn.out) + Logged(text)
  {
    var ret, mval, wild := e.ReadMem(maddr, mlen);
    if wild {
      return false;
    }
    if ret != 0 {
      conn.SendError(ret);
      return true;
    }
    if 2 * |mval| >= MAX_SEND_PACKET_SIZE {
      return false;
    }
    ok := conn.SendHex(mval);
  }

  // ---------------------------------------------------------------- M

  /**
   * Reply and memory after `M`. `content` is everything the source can read from behind the ':' on,
   * if there is one: the text, the NUL that replaced '#', the checksum digits and the final NUL. The
   * hex codec takes its length as an `int`.
   */
  function MemWrite(mem: seq<byte>, addr: u64, len: u64, content: Option<seq<byte>>): (r: (MemReply, seq<byte>))
    requires |mem| == MEM_SIZE
    ensures |r.1| == MEM_SIZE
  {
    var n := Int32(len);
    if n > 0 && (content == None || |content.value| < 2 * n) then (Crash, mem)
    else
      match CheckBounds(addr, len)
      case Refused => (Error(EFAULT), mem)
      case Outside => (Crash, mem)
      case InRange => (Ok, Splice(mem, addr, Decoded(content, len)))
  }

  /** The bytes `str_to_hex` leaves. */
  function Decoded(content: Option<seq<byte>>, len: nat): (s: seq<byte>)
    requires len > 0 ==> content.Some? && |content.value| >= 2 * len
    ensures |s| == len
  {
    if len == 0 then [] else HexDecode(content.value, len)
  }

  /** The bytes to write, as `str_to_hex` leaves them in a fresh buffer of `mlen` bytes. */
  method DecodeContent(mlen: u64, content: Option<seq<byte>>) returns (mval: seq<byte>)
    requires Int32(mlen) > 0 ==> content.Some? && |content.value| >= 2 * Int32(mlen) as int
    ensures |mval| == mlen
    ensures mlen <= MEM_SIZE ==> mval == Decoded(content, mlen)
  {
    var bytes: int := Int32(mlen);
    SmallInt(mlen);
    if bytes <= 0 {
      return seq(mlen, i => 0);
    }
    var buf := new byte[mlen];
    StrToHex(content.value, buf, 0, bytes);
    mval := buf[..];
    assert mlen <= MEM_SIZE ==> mval == HexDecode(content.value, mlen);
  }

  /** `process_mem_write`: one reply on every path that does not end the program. */
  method ProcessMemWrite(e: Emu, conn: Conn, maddr: u64, mlen: u64, content: Option<seq<byte>>) returns (ok: bool)
    requires e.Valid()
    modifies e, e.mem, conn`out
    ensures var (reply, mem) := MemWrite(old(e.m).mem, maddr, mlen, content);
      && ok == MemText(reply).Some? && conn.out == old(conn.out) + Logged(MemText(reply))
      && (ok ==> e.Valid() && e.m == old(e.m).(mem := mem))
  {
    var bytes: int := Int32(mlen);
    if bytes > 0 && (content == None || |content.value| < 2 * bytes) {
      return false;
    }
    var mval := DecodeContent(mlen, content);
    var ret, wild := e.WriteMem(maddr, mval);
    if wild {
      return false;
    }
    if ret != 0 {
      conn.SendError(ret);
      return true;
    }
    conn.SendFixed("OK");
    return true;
  }

  /** There is enough to read. */
  predicate Enough(content: Option<seq<byte>>, len: nat)
  {
    len == 0 || (content.Some? && |content.value| >= 2 * len)
  }

  lemma SmallInt(len: u64)
    ensures len <= MEM_SIZE ==> Int32(len) == len
  {
  }

  /** The memory changes exactly when the range is in it and there is enough to read. */
  lemma MemWriteExact(mem: seq<byte>, addr: u64, len: u64, content: Option<seq<byte>>)
    requires |mem| == MEM_SIZE
    ensures addr + len <= MEM_SIZE && Enough(content, len) ==>
              MemWrite(mem, addr, len, content) == (MemReply.Ok, Splice(mem, addr, Decoded(content, len)))
    ensures !(addr + len <= MEM_SIZE && Enough(content, len)) ==> MemWrite(mem, addr, len, content).1 == mem
  {
    BoundsExact(addr, len);
    SmallInt(len);
  }

  /** What lies behind the ':' of an `M` packet, for the text `content` and the checksum digits of the packet. */
  function Behind(content: seq<byte>, digits: seq<byte>): seq<byte>
  {
    content + [0] + digits + [0]
  }

  /**
   * `M` then `m` of the same range: the text comes back in lower case exactly when it was all hex
   * digits, whatever follows it in the packet.
   */
  lemma WriteThenRead(mem: seq<byte>, addr: u64, len: u64, content: seq<byte>, digits: seq<byte>)
    requires |mem| == MEM_SIZE && addr + len <= MEM_SIZE
    requires |content| == 2 * len && Sendable(content)
    ensures var (reply, after) := MemWrite(mem, addr, len, Some(Behind(content, digits)));
      reply == Ok && (MemRead(after, addr, len) == Hex(Lower(content)) <==> AllHexDigits(content))
  {
    var val := HexDecode(content, len);
    DecodedOf(content, digits, len);
    MemWriteExact(mem, addr, len, Some(Behind(content, digits)));
    HexEncodeDecode(content, len);
    ReadBack(mem, addr, val);
    ReadWritten(Splice(mem, addr, val), addr, len, val);
  }

  /**
   * `M` is answered `OK` with a text that is too short exactly when the range is in memory and no more
   * than four characters are missing: the codec then goes on into the NUL, the checksum and its NUL.
   */
  lemma ShortContentExact(mem: seq<byte>, addr: u64, len: u64, text: seq<byte>, digits: seq<byte>)
    requires |mem| == MEM_SIZE && |digits| == 2 && len <= MEM_SIZE
    ensures MemWrite(mem, addr, len, Some(Behind(text, digits))).0 == MemReply.Ok && |text| < 2 * len
      <==> addr + len <= MEM_SIZE && |text| < 2 * len <= |text| + 4
  {
    BoundsExact(addr, len);
    SmallInt(len);
  }

  lemma DecodedOf(content: seq<byte>, digits: seq<byte>, len: nat)
    requires |content| == 2 * len
    ensures Decoded(Some(Behind(content, digits)), len) == HexDecode(content, len)
  {
    var b := Behind(content, digits);
    assert forall i :: 0 <= i < |content| ==> b[i] == content[i];
  }

  /**
   * `M` of one byte with an empty text: the codec reads the NUL and the first checksum digit, and the
   * answer is `OK`.
   */
  lemma ShortContentAccepted(mem: seq<byte>, addr: u64, digits: seq<byte>)
    requires |mem| == MEM_SIZE && addr < MEM_SIZE && |digits| == 2
    ensures MemWrite(mem, addr, 1, Some(Behind([], digits)))
         == (Ok, Splice(mem, addr, [DecodePair(0, digits[0])]))
  {
    var b := Behind([], digits);
    assert b[0] == 0 && b[1] == digits[0];
    MemWriteExact(mem, addr, 1, Some(b));
    assert HexDecode(b, 1) == [DecodePair(b[0], b[1])];
  }

  /** What memory holds is what `m` answers. */
  lemma ReadWritten(mem: seq<byte>, addr: u64, len: u64, val: seq<byte>)
    requires |mem| == MEM_SIZE && addr + len <= MEM_SIZE && mem[addr..addr + len] == val
    requires Sendable(HexEncode(val))
    ensures MemRead(mem, addr, len) == Hex(HexEncode(val))
  {
    BoundsExact(addr, len);
  }

  lemma ReadBack(mem: seq<byte>, addr: nat, val: seq<byte>)
    requires |mem| == MEM_SIZE && addr + |val| <= MEM_SIZE
    ensures Splice(mem, addr, val)[addr..addr + |val|] == val
  {
  }

  /** `M` touches nothing else: bytes outside its range stay, and so does what `m` of any disjoint range answers. */
  lemma WriteElsewhere(mem: seq<byte>, addr: u64, len: u64, content: Option<seq<byte>>, other: u64, k: u64)
    requires |mem| == MEM_SIZE
    ensures var after := MemWrite(mem, addr, len, content).1;
      && (forall i :: 0 <= i < MEM_SIZE && !(addr <= i < addr + len) ==> after[i] == mem[i])
      && (other + k <= addr || addr + len <= other ==> MemRead(after, other, k) == MemRead(mem, other, k))
  {
    MemWriteExact(mem, addr, len, content);
    if addr + len <= MEM_SIZE && Enough(content, len) {
      WrittenElsewhere(mem, addr, Decoded(content, len), other, k);
    }
  }

  lemma WrittenElsewhere(mem: seq<byte>, addr: nat, val: seq<byte>, other: u64, k: u64)
    requires |mem| == MEM_SIZE && addr + |val| <= MEM_SIZE
    ensures forall i :: 0 <= i < MEM_SIZE && !(addr <= i < addr + |val|) ==> Splice(mem, addr, val)[i] == mem[i]
    ensures other + k <= addr || addr + |val| <= other ==>
              MemRead(Splice(mem, addr, val), other, k) == MemRead(mem, other, k)
  {
    var after := Splice(mem, addr, val);
    var hi := addr + |val|;
    if other + k <= addr {
      SamePart(mem, after, 0, addr, other, other + k);
    } else if hi <= other && other + k <= MEM_SIZE {
      SamePart(mem, after, hi, MEM_SIZE, other, other + k);
    }
  }

  /** Where two memories agree, so do their parts. */
  lemma SamePart(a: seq<byte>, b: seq<byte>, lo: nat, hi: nat, from: nat, to: nat)
    requires |a| == |b| && lo <= from <= to <= hi <= |a|
    requires forall i :: lo <= i < hi ==> a[i] == b[i]
    ensures a[from..to] == b[from..to]
  {
  }

  // ---------------------------------------------------------------- X

  /** `strchr(s, ':')` on bytes that may hold a NUL: the string ends there. */
  function ColonAt(s: seq<byte>): Option<nat>
  {
    var i := IndexOf(s, COLON);
    if i < IndexOf(s, 0) then Some(i) else None
  }

  /** The bytes an `X` payload carries: what follows the first ':', unescaped. */
  function XContent(payload: seq<byte>): Option<seq<byte>>
  {
    match ColonAt(payload)
    case None => None
    case Some(i) => Some(Unescape(payload[i + 1..], 0))
  }

  /**
   * Reply and memory after `X`; the result of the write is ignored. The number of bytes is compared
   * with the length as an `int`.
   */
  function XWrite(mem: seq<byte>, payload: seq<byte>, addr: u64, len: u64): (r: (MemReply, seq<byte>))
    requires |mem| == MEM_SIZE
    ensures |r.1| == MEM_SIZE
  {
    match XContent(payload)
    case None => (Crash, mem)
    case Some(s) =>
      if |s| != Int32(len) then (Crash, mem)
      else
        match CheckBounds(addr, len)
        case Refused => (Ok, mem)
        case Outside => (Crash, mem)
        case InRange => (Ok, Splice(mem, addr, s))
  }

  /** The memory changes exactly when the range is in it and the bytes are as many as announced. */
  lemma XWriteExact(mem: seq<byte>, payload: seq<byte>, addr: u64, len: u64)
    requires |mem| == MEM_SIZE
    ensures var s := XContent(payload);
      if addr + len <= MEM_SIZE && s.Some? && |s.value| == len
      then XWrite(mem, payload, addr, len) == (MemReply.Ok, Splice(mem, addr, s.value))
      else XWrite(mem, payload, addr, len).1 == mem
  {
    BoundsExact(addr, len);
    SmallInt(len);
  }

  /**
   * `X` with as many bytes as announced is answered `OK` unless the copy leaves memory, and `OK` means
   * that they were written exactly when the range is in memory; elsewhere nothing was.
   */
  lemma XAnswerExact(mem: seq<byte>, payload: seq<byte>, addr: u64, len: u64)
    requires |mem| == MEM_SIZE
    requires XContent(payload).Some? && |XContent(payload).value| == Int32(len)
    ensures var (reply, after) := XWrite(mem, payload, addr, len);
      && (reply == MemReply.Ok <==> !(W64 <= addr + len <= W64 + MEM_SIZE))
      && (addr + len <= MEM_SIZE ==> after == Splice(mem, addr, XContent(payload).value))
      && (addr + len > MEM_SIZE ==> after == mem)
  {
    BoundsExact(addr, len);
    SmallInt(len);
  }

  /**
   * An input: one byte for the first address behind memory is answered `OK` and written nowhere; `M` is
   * answered with an error.
   */
  lemma XRefusedSaysOk(mem: seq<byte>, header: seq<byte>, b: byte, digits: seq<byte>)
    requires |mem| == MEM_SIZE && COLON !in header && 0 !in header && |digits| == 2
    ensures XWrite(mem, XPayload(header, Escape([b])), MEM_SIZE, 1) == (MemReply.Ok, mem)
    ensures MemWrite(mem, MEM_SIZE, 1, Some(Behind(HexEncode([b]), digits))) == (Error(EFAULT), mem)
  {
    XCarries(header, Escape([b]), [b]);
    XAnswerExact(mem, XPayload(header, Escape([b])), MEM_SIZE, 1);
  }

  /**
   * `process_mem_xwrite` on the packet's own bytes: the payload starts at 2 and ends at
   * `packetEnd`, where the '#' has been overwritten with a NUL. One reply on every path that does
   * not end the program.
   */
  method ProcessMemXwrite(e: Emu, conn: Conn, data: array<byte>, packetEnd: nat, maddr: u64, mlen: u64)
    returns (ok: bool)
    requires e.Valid() && data != e.mem
    requires 2 <= packetEnd < data.Length && data[packetEnd] == 0
    modifies data, e, e.mem, conn`out
    ensures var (reply, mem) := XWrite(old(e.m).mem, old(data[2..packetEnd]), maddr, mlen);
      && ok == MemText(reply).Some? && conn.out == old(conn.out) + Logged(MemText(reply))
      && (ok ==> e.Valid() && e.m == old(e.m).(mem := mem))
  {
    ghost var payload := data[2..packetEnd];
    var colon := FindColon(data, packetEnd);
    if colon == None {
      return false;
    }
    var content := colon.value + 1;
    data[colon.value] := 0;
    assert data[content..packetEnd] == payload[content - 2..];
    var count := UnescapeInPlace(data, content, packetEnd);
    if count != Int32(mlen) {
      return false;
    }
    assert data[content..content + count] == Unescape(payload[content - 2..], 0);
    ok := CopyOut(e, maddr, mlen, data[content..content + count]);
    if ok {
      conn.SendFixed("OK");
    }
  }

  /** `write_mem` of `mlen` bytes from where `s` lies; `false` when the copy would leave memory. */
  method CopyOut(e: Emu, maddr: u64, mlen: u64, s: seq<byte>) returns (ok: bool)
    requires e.Valid() && |s| == Int32(mlen)
    modifies e, e.mem
    ensures match CheckBounds(maddr, mlen)
      case Refused => ok && e.Valid() && e.m == old(e.m)
      case Outside => !ok
      case InRange => ok && e.Valid() && e.m == old(e.m).(mem := Splice(old(e.m).mem, maddr, s))
  {
    if mlen > MEM_SIZE {
      return (maddr + mlen) % W64 > MEM_SIZE;
    }
    var _, wild := e.WriteMem(maddr, s);
    ok := !wild;
  }

  /** `strchr(payload, ':')`: the index in `data`. */
  method FindColon(data: array<byte>, packetEnd: nat) returns (colon: Option<nat>)
    requires 2 <= packetEnd < data.Length && data[packetEnd] == 0
    ensures match ColonAt(data[2..packetEnd])
      case None => colon == None
      case Some(i) => colon == Some(i + 2) && i + 2 < packetEnd
  {
    var i := 2;
    while data[i] != 0 && data[i] != COLON
      invariant 2 <= i <= packetEnd
      invariant 0 !in data[2..i] && COLON !in data[2..i]
      decreases packetEnd - i
    {
      i := i + 1;
    }
    FoundColon(data[2..packetEnd], data[..], i, packetEnd);
    return if data[i] == COLON then Some(i) else None;
  }

  lemma FoundColon(payload: seq<byte>, data: seq<byte>, colon: nat, packetEnd: nat)
    requires 2 <= colon <= packetEnd < |data| && data[packetEnd] == 0 && payload == data[2..packetEnd]
    requires 0 !in data[2..colon] && COLON !in data[2..colon]
    requires data[colon] == 0 || data[colon] == COLON
    ensures ColonAt(payload) == if data[colon] == COLON then Some(colon - 2) else None
  {
    assert payload[..colon - 2] == data[2..colon];
    if colon < packetEnd {
      assert payload[colon - 2] == data[colon];
      if data[colon] == COLON {
        IndexOfIs(payload, COLON, colon - 2);
        FirstNotBefore(payload, 0, colon - 2);
      } else {
        IndexOfIs(payload, 0, colon - 2);
        FirstNotBefore(payload, COLON, colon - 2);
      }
    } else {
      assert payload[..colon - 2] == payload;
    }
  }

  lemma FirstNotBefore(s: seq<byte>, b: byte, i: nat)
    requires i < |s| && b !in s[..i] && s[i] != b
    ensures IndexOf(s, b) > i
  {
    assert forall j :: 0 <= j < i ==> s[j] == s[..i][j];
  }

  /** The payload of an `X` packet. */
  function XPayload(header: seq<byte>, content: seq<byte>): seq<byte>
  {
    header + [COLON] + content
  }

  /** An address header and any legal encoding of `s` carry exactly `s`. */
  lemma XCarries(header: seq<byte>, e: seq<byte>, s: seq<byte>)
    requires COLON !in header && 0 !in header && Encodes(e, s)
    ensures XContent(XPayload(header, e)) == Some(s)
  {
    var p := XPayload(header, e);
    assert p[..|header|] == header && p[|header|] == COLON && p[|header| + 1..] == e;
    IndexOfIs(p, COLON, |header|);
    FirstNotBefore(p, 0, |header|);
    UnescapeEncoded(e, s, 0);
  }
}
