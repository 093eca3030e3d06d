/**
 * The `g` and `G` commands of src/gdbstub.c: reading all registers into one hex string, and writing
 * them all or none.
 *
 * `process_reg_read` places register `i` at `i` times its own width, `process_reg_write` takes it
 * from the sum of the widths before it. Both are modelled as written; they agree exactly when all
 * widths are equal.
 */
module Registers {
  import opened Bytes
  import opened Codec
  import opened Connection
  import opened Protocol

  // ---------------------------------------------------------------- layout

  /** Bytes before register `i`: the running `storage_offset`. */
  function Offset(widths: seq<nat>, i: nat): nat
    requires i <= |widths|
  {
    if i == 0 then 0 else Offset(widths, i - 1) + widths[i - 1]
  }

  function TotalBytes(widths: seq<nat>): nat
  {
    Offset(widths, |widths|)
  }

  lemma {:induction false} OffsetMonotone(widths: seq<nat>, i: nat, j: nat)
    requires i <= j <= |widths|
    ensures Offset(widths, i) <= Offset(widths, j)
  {
    if i < j { OffsetMonotone(widths, i, j - 1); }
  }

  predicate Uniform(widths: seq<nat>)
  {
    forall i :: 0 <= i < |widths| ==> widths[i] == widths[0]
  }

  lemma {:induction false} UniformPrefix(widths: seq<nat>, i: nat)
    requires i <= |widths| && forall j :: 0 <= j < i ==> widths[j] == widths[0]
    ensures i > 0 ==> Offset(widths, i) == i * widths[0]
  {
    if i > 1 { UniformPrefix(widths, i - 1); }
  }

  /** Where `g` puts a register is where `G` takes it from, for every register, exactly when the widths are uniform. */
  lemma LayoutsAgree(widths: seq<nat>)
    ensures (forall i :: 0 <= i < |widths| ==> i * widths[i] == Offset(widths, i)) <==> Uniform(widths)
  {
    if Uniform(widths) {
      forall i | 0 <= i < |widths| ensures i * widths[i] == Offset(widths, i) {
        UniformPrefix(widths, i);
      }
    } else {
      var i := FirstOdd(widths);
      UniformPrefix(widths, i);
      if i * widths[i] == i * widths[0] {
        CancelFactor(i, widths[i], widths[0]);
      }
    }
  }

  lemma CancelFactor(i: nat, a: nat, b: nat)
    requires i > 0 && a != b
    ensures i * a != i * b
  {
    if a < b {
      assert i * b == i * a + i * (b - a);
    } else {
      assert i * a == i * b + i * (a - b);
    }
  }

  /** The first register whose width is not that of register 0. */
  lemma FirstOdd(widths: seq<nat>) returns (i: nat)
    requires !Uniform(widths)
    ensures 0 < i < |widths| && widths[i] != widths[0] && forall j :: 0 <= j < i ==> widths[j] == widths[0]
  {
    i := 1;
    while widths[i] == widths[0]
      invariant 0 < i < |widths| && forall j :: 0 <= j < i ==> widths[j] == widths[0]
      invariant exists j :: i <= j < |widths| && widths[j] != widths[0]
      decreases |widths| - i
    {
      i := i + 1;
    }
  }

  predicate WellSized(widths: seq<nat>, regs: seq<seq<byte>>)
  {
    |regs| == |widths| && forall i {:trigger regs[i]} :: 0 <= i < |widths| ==> |regs[i]| == widths[i]
  }

  /** All register bytes in order. */
  function Flatten(regs: seq<seq<byte>>, n: nat): (s: seq<byte>)
    requires n <= |regs|
  {
    if n == 0 then [] else Flatten(regs, n - 1) + regs[n - 1]
  }

  lemma {:induction false} FlattenLength(widths: seq<nat>, regs: seq<seq<byte>>, n: nat)
    requires WellSized(widths, regs) && n <= |regs|
    ensures |Flatten(regs, n)| == Offset(widths, n)
  {
    if n > 0 { FlattenLength(widths, regs, n - 1); }
  }

  // ---------------------------------------------------------------- G: parsing

  /** The value that `w` bytes of hex from storage offset `k` on stand for. */
  function DecodeAt(payload: seq<byte>, k: nat, w: nat): (value: seq<byte>)
    requires 2 * k + 2 * w <= |payload|
    ensures |value| == w
  {
    HexDecode(payload[2 * k..2 * k + 2 * w], w)
  }

  /** The value of register `i` in a payload. */
  function ParsedReg(widths: seq<nat>, payload: seq<byte>, i: nat): (value: seq<byte>)
    requires i < |widths| && |payload| == 2 * TotalBytes(widths)
    ensures |value| == widths[i]
  {
    OffsetMonotone(widths, i + 1, |widths|);
    DecodeAt(payload, Offset(widths, i), widths[i])
  }

  /** The values of the first `n` registers in a payload. */
  function Parsed(widths: seq<nat>, payload: seq<byte>, n: nat): (regs: seq<seq<byte>>)
    requires n <= |widths| && |payload| == 2 * TotalBytes(widths)
    ensures |regs| == n
  {
    if n == 0 then [] else Parsed(widths, payload, n - 1) + [ParsedReg(widths, payload, n - 1)]
  }

  lemma {:induction false} ParsedAt(widths: seq<nat>, payload: seq<byte>, n: nat, i: nat)
    requires i < n <= |widths| && |payload| == 2 * TotalBytes(widths)
    ensures Parsed(widths, payload, n)[i] == ParsedReg(widths, payload, i)
  {
    if i < n - 1 { ParsedAt(widths, payload, n - 1, i); }
  }

  lemma {:induction false} ParsedFlatten(widths: seq<nat>, payload: seq<byte>, n: nat, k: nat)
    requires |payload| == 2 * TotalBytes(widths) && n <= |widths| && k == Offset(widths, n)
    ensures 2 * k <= |payload| && Flatten(Parsed(widths, payload, n), n) == HexDecode(payload, k)
    decreases n
  {
    OffsetMonotone(widths, n, |widths|);
    if n > 0 {
      var j, w := Offset(widths, n - 1), widths[n - 1];
      ParsedFlatten(widths, payload, n - 1, j);
      ParsedJoin(Parsed(widths, payload, n - 1), ParsedReg(widths, payload, n - 1), payload, j, w);
    }
  }

  lemma ParsedJoin(front: seq<seq<byte>>, last: seq<byte>, payload: seq<byte>, k: nat, w: nat)
    requires 2 * k + 2 * w <= |payload|
    requires Flatten(front, |front|) == HexDecode(payload, k)
    requires last == DecodeAt(payload, k, w)
    ensures Flatten(front + [last], |front| + 1) == HexDecode(payload, k + w)
  {
    FlattenSnoc(front, last);
    DecodeSplit(payload, k, w);
  }

  lemma FlattenSnoc(regs: seq<seq<byte>>, last: seq<byte>)
    ensures Flatten(regs + [last], |regs| + 1) == Flatten(regs, |regs|) + last
  {
    FlattenPrefix(regs, [last], |regs|);
  }

  lemma {:induction false} FlattenPrefix(regs: seq<seq<byte>>, more: seq<seq<byte>>, n: nat)
    requires n <= |regs|
    ensures Flatten(regs + more, n) == Flatten(regs, n)
  {
    if n > 0 { FlattenPrefix(regs, more, n - 1); }
  }

  lemma DecodeSplit(payload: seq<byte>, k: nat, w: nat)
    requires 2 * k + 2 * w <= |payload|
    ensures HexDecode(payload, k + w) == HexDecode(payload, k) + DecodeAt(payload, k, w)
  {
    MapPairsSplit(payload, k, w, DecodePair);
  }

  /** The payload of all registers' hex digits parses back to the registers. */
  lemma ParsedOfHex(widths: seq<nat>, regs: seq<seq<byte>>)
    requires WellSized(widths, regs)
    ensures |HexEncode(Flatten(regs, |regs|))| == 2 * TotalBytes(widths)
    ensures Parsed(widths, HexEncode(Flatten(regs, |regs|)), |regs|) == regs
  {
    var n := |regs|;
    FlattenLength(widths, regs, n);
    var payload := HexEncode(Flatten(regs, n));
    forall i | 0 <= i < n ensures Parsed(widths, payload, n)[i] == regs[i] {
      ParsedAt(widths, payload, n, i);
      FieldOfHex(widths, regs, i, n);
      HexDecodeEncode(regs[i]);
    }
  }

  lemma {:induction false} FieldOfHex(widths: seq<nat>, regs: seq<seq<byte>>, i: nat, n: nat)
    requires WellSized(widths, regs) && i < n <= |regs|
    ensures Offset(widths, i) + widths[i] <= Offset(widths, n) && |HexEncode(Flatten(regs, n))| == 2 * Offset(widths, n)
    ensures HexEncode(Flatten(regs, n))[2 * Offset(widths, i)..2 * Offset(widths, i) + 2 * widths[i]]
      == HexEncode(regs[i])
    decreases n
  {
    OffsetMonotone(widths, i + 1, n);
    FlattenLength(widths, regs, n);
    FlattenLength(widths, regs, n - 1);
    var front, last := HexEncode(Flatten(regs, n - 1)), HexEncode(regs[n - 1]);
    HexEncodeAppend(Flatten(regs, n - 1), regs[n - 1]);
    if i < n - 1 {
      FieldOfHex(widths, regs, i, n - 1);
      SliceOfFront(front, last, 2 * Offset(widths, i), 2 * Offset(widths, i) + 2 * widths[i]);
    } else {
      SliceOfLast(front, last);
    }
  }

  lemma SliceOfFront(front: seq<byte>, last: seq<byte>, lo: nat, hi: nat)
    requires lo <= hi <= |front|
    ensures (front + last)[lo..hi] == front[lo..hi]
  {
  }

  lemma SliceOfLast(front: seq<byte>, last: seq<byte>)
    ensures (front + last)[|front|..|front| + |last|] == last
  {
  }

  // ---------------------------------------------------------------- the target

  /** What successive register accesses return; those beyond the end succeed. */
  type Codes = seq<int32>

  function Code(codes: Codes, k: nat): int32
  {
    if k < |codes| then codes[k] else 0
  }

  /**
   * The registers behind `read_reg` and `write_reg`. The `k`-th access returns `Code(codes, k)`, zero for
   * success; a failed write changes nothing and registers do not alias.
   */
  class Target {
    const widths: seq<nat>
    const codes: Codes
    var regs: seq<seq<byte>>
    var calls: nat

    ghost predicate Valid()
      reads this
    {
      WellSized(widths, regs)
    }

    constructor (widths: seq<nat>, codes: Codes, regs: seq<seq<byte>>)
      requires WellSized(widths, regs)
      ensures Valid() && this.widths == widths && this.codes == codes && this.regs == regs && calls == 0
    {
      this.widths, this.codes, this.regs, calls := widths, codes, regs, 0;
    }

    method ReadReg(i: nat) returns (ret: int32, value: seq<byte>)
      requires Valid() && i < |widths|
      modifies this`calls
      ensures ret == Code(codes, old(calls)) && calls == old(calls) + 1
      ensures ret == 0 ==> value == regs[i]
    {
      ret, value, calls := Code(codes, calls), regs[i], calls + 1;
    }

    method WriteReg(i: nat, value: seq<byte>) returns (ret: int32)
      requires Valid() && i < |widths| && |value| == widths[i]
      modifies this
      ensures Valid() && ret == Code(codes, old(calls)) && calls == old(calls) + 1
      ensures regs == if ret == 0 then old(regs)[i := value] else old(regs)
    {
      ret, calls := Code(codes, calls), calls + 1;
      if ret == 0 {
        regs := regs[i := value];
      }
    }
  }

  // ---------------------------------------------------------------- G: what it does

  datatype WriteReply = Ok | InvalidLength | NoMemory | Failed(code: int32)

  /** How many of `n` accesses from number `from` on succeed before one fails. */
  function FirstFailure(codes: Codes, from: nat, n: nat): (k: nat)
    ensures k <= n
    ensures k < n ==> Code(codes, from + k) != 0
    decreases n
  {
    if n == 0 || Code(codes, from) != 0 then 0 else 1 + FirstFailure(codes, from + 1, n - 1)
  }

  /** Of the accesses up to the first failure, only that one fails. */
  lemma {:induction false} FailsAt(codes: Codes, from: nat, n: nat, i: nat)
    requires i <= FirstFailure(codes, from, n) && i < n
    ensures Code(codes, from + i) == 0 <==> i < FirstFailure(codes, from, n)
    decreases n
  {
    if i > 0 { FailsAt(codes, from + 1, n - 1, i - 1); }
  }

  /**
   * The registers after restoring the first `n` of them, by accesses from number `from` on whose results
   * are ignored.
   */
  function Restored(regs: seq<seq<byte>>, olds: seq<seq<byte>>, codes: Codes, from: nat, n: nat): (r: seq<seq<byte>>)
    requires |regs| == |olds| && n <= |olds|
    ensures |r| == |olds|
  {
    if n == 0 then regs
    else
      var r := Restored(regs, olds, codes, from, n - 1);
      if Code(codes, from + n - 1) == 0 then r[n - 1 := olds[n - 1]] else r
  }

  /** What restoring register `i` returns. */
  function RestoreCode(codes: Codes, from: nat, i: nat): int32
  {
    Code(codes, from + i)
  }

  lemma {:induction false} RestoredAt(regs: seq<seq<byte>>, olds: seq<seq<byte>>, codes: Codes, from: nat, n: nat,
                                      i: nat)
    requires |regs| == |olds| && n <= |olds| && i < |olds|
    ensures Restored(regs, olds, codes, from, n)[i]
         == if i < n && RestoreCode(codes, from, i) == 0 then olds[i] else regs[i]
    decreases n
  {
    if n > 0 { RestoredAt(regs, olds, codes, from, n - 1, i); }
  }

  /** The first `i` registers new, the others old. */
  function Mixed(news: seq<seq<byte>>, olds: seq<seq<byte>>, i: nat): (s: seq<seq<byte>>)
    requires |news| == |olds| && i <= |olds|
    ensures |s| == |olds|
  {
    if i == 0 then olds else Mixed(news, olds, i - 1)[i - 1 := news[i - 1]]
  }

  lemma {:induction false} MixedAt(news: seq<seq<byte>>, olds: seq<seq<byte>>, i: nat, j: nat)
    requires |news| == |olds| && i <= |olds| && j < |olds|
    ensures Mixed(news, olds, i)[j] == if j < i then news[j] else olds[j]
    decreases i
  {
    if i > 0 { MixedAt(news, olds, i - 1, j); }
  }

  lemma MixedAll(news: seq<seq<byte>>, olds: seq<seq<byte>>)
    requires |news| == |olds|
    ensures Mixed(news, olds, |olds|) == news
  {
    forall j | 0 <= j < |olds| ensures Mixed(news, olds, |olds|)[j] == news[j] {
      MixedAt(news, olds, |olds|, j);
    }
  }

  /** Reply and registers once all new values are parsed and the old ones saved. */
  function Committed(olds: seq<seq<byte>>, news: seq<seq<byte>>, codes: Codes, calls: nat):
    (r: (WriteReply, seq<seq<byte>>))
    requires |olds| == |news|
  {
    var n := |olds|;
    var written := FirstFailure(codes, calls, n);
    if written == n then (Ok, news)
    else (Failed(Code(codes, calls + written)),
          Restored(Mixed(news, olds, written), olds, codes, calls + written + 1, written))
  }

  /** Reply and registers after a `G` that got as far as parsing. */
  function WriteAll(olds: seq<seq<byte>>, news: seq<seq<byte>>, codes: Codes, calls: nat):
    (r: (WriteReply, seq<seq<byte>>))
    requires |olds| == |news|
  {
    var n := |olds|;
    var read := FirstFailure(codes, calls, n);
    if read < n then (Failed(Code(codes, calls + read)), olds) else Committed(olds, news, codes, calls + n)
  }

  /** Reply and registers after `G` with any payload. */
  function RegWrite(widths: seq<nat>, olds: seq<seq<byte>>, payload: seq<byte>, hasMemory: bool, codes: Codes,
                    calls: nat):
    (r: (WriteReply, seq<seq<byte>>))
    requires |olds| == |widths|
  {
    if TotalBytes(widths) == 0 then (Ok, olds)
    else if |payload| != 2 * TotalBytes(widths) then (InvalidLength, olds)
    else if !hasMemory then (NoMemory, olds)
    else WriteAll(olds, Parsed(widths, payload, |widths|), codes, calls)
  }

  /** The access number at which restoring starts when a `G` that started at number `calls` fails to write. */
  function RestoreFrom(codes: Codes, calls: nat, n: nat): nat
  {
    calls + n + FirstFailure(codes, calls + n, n) + 1
  }

  /** Writing back a value just read succeeds. */
  ghost predicate RestoresSucceed(codes: Codes, calls: nat, n: nat)
  {
    forall i :: 0 <= i < FirstFailure(codes, calls + n, n) ==> RestoreCode(codes, RestoreFrom(codes, calls, n), i) == 0
  }

  /**
   * All or nothing: `OK` comes with exactly the registers the payload stands for, any other reply with
   * the registers untouched. With no register bytes at all there is nothing to write.
   */
  lemma AllOrNothing(widths: seq<nat>, olds: seq<seq<byte>>, payload: seq<byte>, hasMemory: bool, codes: Codes,
                     calls: nat)
    requires WellSized(widths, olds) && RestoresSucceed(codes, calls, |olds|)
    ensures var (reply, regs) := RegWrite(widths, olds, payload, hasMemory, codes, calls);
      && (reply != Ok ==> regs == olds)
      && (reply == Ok && TotalBytes(widths) == 0 ==> regs == olds)
      && (reply == Ok && TotalBytes(widths) > 0 ==>
            |payload| == 2 * TotalBytes(widths) && regs == Parsed(widths, payload, |widths|))
      && (reply == InvalidLength <==> TotalBytes(widths) > 0 && |payload| != 2 * TotalBytes(widths))
  {
    if |payload| == 2 * TotalBytes(widths) {
      CommittedOrNot(olds, Parsed(widths, payload, |widths|), codes, calls);
    }
  }

  lemma CommittedOrNot(olds: seq<seq<byte>>, news: seq<seq<byte>>, codes: Codes, calls: nat)
    requires |olds| == |news| && RestoresSucceed(codes, calls, |olds|)
    ensures var (reply, regs) := WriteAll(olds, news, codes, calls);
      reply != InvalidLength && regs == if reply == Ok then news else olds
  {
    var n := |olds|;
    RollbackExact(olds, news, codes, RestoreFrom(codes, calls, n), FirstFailure(codes, calls + n, n));
  }

  /**
   * Without that assumption, a failed `G` leaves the old registers exactly when every restore that
   * failed had nothing to undo.
   */
  lemma RollbackExact(olds: seq<seq<byte>>, news: seq<seq<byte>>, codes: Codes, from: nat, failed: nat)
    requires |olds| == |news| && failed <= |olds|
    ensures Restored(Mixed(news, olds, failed), olds, codes, from, failed) == olds
      <==> forall i :: 0 <= i < failed ==> RestoreCode(codes, from, i) == 0 || news[i] == olds[i]
  {
    var back := Restored(Mixed(news, olds, failed), olds, codes, from, failed);
    forall i | 0 <= i < |olds|
      ensures back[i] == olds[i] <==> (i < failed ==> RestoreCode(codes, from, i) == 0 || news[i] == olds[i])
    {
      RestoredAt(Mixed(news, olds, failed), olds, codes, from, failed, i);
      MixedAt(news, olds, failed, i);
    }
  }

  /** An input: two one-byte registers; the second write fails, and so does restoring the first. */
  lemma RollbackFails()
    ensures WriteAll([[0], [0]], [[1], [1]], [0, 0, 0, 5, 5], 0) == (Failed(5), [[1], [0]])
  {
    var codes: Codes := [0, 0, 0, 5, 5];
    FirstOfTwo(codes, 0, 2);
    FirstOfTwo(codes, 2, 1);
    var news, olds: seq<seq<byte>> := [[1], [1]], [[0], [0]];
    assert Mixed(news, olds, 0) == olds && Mixed(news, olds, 1) == [[1], [0]];
    assert Restored([[1], [0]], olds, codes, 4, 0) == [[1], [0]];
    assert Restored([[1], [0]], olds, codes, 4, 1) == [[1], [0]];
  }

  /** Of two accesses, `good` succeed before one fails. */
  lemma FirstOfTwo(codes: Codes, from: nat, good: nat)
    requires good <= 2 && (forall i :: from <= i < from + good ==> Code(codes, i) == 0)
    requires good < 2 ==> Code(codes, from + good) != 0
    ensures FirstFailure(codes, from, 2) == good
  {
    assert FirstFailure(codes, from + 2, 0) == 0;
    assert good > 0 ==> Code(codes, from) == 0;
    assert good > 1 ==> Code(codes, from + 1) == 0;
    assert FirstFailure(codes, from + 1, 1) == if Code(codes, from + 1) != 0 then 0 else 1;
  }

  /** Sending the registers' own hex back changes none of them, whatever fails. */
  lemma WriteBackIsNeutral(widths: seq<nat>, regs: seq<seq<byte>>, hasMemory: bool, codes: Codes, calls: nat)
    requires WellSized(widths, regs)
    ensures RegWrite(widths, regs, HexEncode(Flatten(regs, |regs|)), hasMemory, codes, calls).1 == regs
  {
    ParsedOfHex(widths, regs);
    SameValues(regs, codes, calls);
  }

  lemma SameValues(regs: seq<seq<byte>>, codes: Codes, calls: nat)
    ensures WriteAll(regs, regs, codes, calls).1 == regs
  {
    var n := |regs|;
    RollbackExact(regs, regs, codes, RestoreFrom(codes, calls, n), FirstFailure(codes, calls + n, n));
  }

  /**
   * Reading the registers after a successful `G` gives its payload in lower case exactly when it was all
   * hex digits.
   */
  lemma ReadAfterWrite(widths: seq<nat>, olds: seq<seq<byte>>, payload: seq<byte>, codes: Codes, calls: nat)
    requires |olds| == |widths| && TotalBytes(widths) > 0 && |payload| == 2 * TotalBytes(widths)
    requires RegWrite(widths, olds, payload, true, codes, calls).0 == Ok
    ensures var regs := RegWrite(widths, olds, payload, true, codes, calls).1;
      |regs| == |widths| && (HexEncode(Flatten(regs, |regs|)) == Lower(payload) <==> AllHexDigits(payload))
  {
    ParsedFlatten(widths, payload, |widths|, TotalBytes(widths));
    HexEncodeDecode(payload, TotalBytes(widths));
  }

  // ---------------------------------------------------------------- G: as written

  /** The bytes of register `i` in a storage array. */
  function Slot(widths: seq<nat>, storage: seq<byte>, i: nat): (value: seq<byte>)
    requires i < |widths| && |storage| == TotalBytes(widths)
    ensures |value| == widths[i]
  {
    OffsetMonotone(widths, i + 1, |widths|);
    storage[Offset(widths, i)..Offset(widths, i) + widths[i]]
  }

  /** The first `n` registers in a storage array. */
  function Slots(widths: seq<nat>, storage: seq<byte>, n: nat): (regs: seq<seq<byte>>)
    requires n <= |widths| && |storage| == TotalBytes(widths)
    ensures |regs| == n
  {
    if n == 0 then [] else Slots(widths, storage, n - 1) + [Slot(widths, storage, n - 1)]
  }

  lemma {:induction false} SlotsAt(widths: seq<nat>, storage: seq<byte>, n: nat, i: nat)
    requires i < n <= |widths| && |storage| == TotalBytes(widths)
    ensures Slots(widths, storage, n)[i] == Slot(widths, storage, i)
  {
    if i < n - 1 { SlotsAt(widths, storage, n - 1, i); }
  }

  /** Storing register `n` leaves the registers before it alone. */
  lemma {:induction false} SlotsKeep(widths: seq<nat>, storage: seq<byte>, n: nat, m: nat, value: seq<byte>)
    requires m <= n < |widths| && |storage| == TotalBytes(widths) && |value| == widths[n]
    ensures Offset(widths, n) + |value| <= |storage|
    ensures Slots(widths, Splice(storage, Offset(widths, n), value), m) == Slots(widths, storage, m)
    decreases m
  {
    OffsetMonotone(widths, n + 1, |widths|);
    if m > 0 {
      SlotsKeep(widths, storage, n, m - 1, value);
      OffsetMonotone(widths, m, n);
      SpliceBefore(storage, Offset(widths, n), value, Offset(widths, m - 1), Offset(widths, m - 1) + widths[m - 1]);
    }
  }

  lemma SpliceBefore(storage: seq<byte>, at: nat, value: seq<byte>, lo: nat, hi: nat)
    requires lo <= hi <= at && at + |value| <= |storage|
    ensures Splice(storage, at, value)[lo..hi] == storage[lo..hi]
  {
  }

  lemma SplicedSlot(storage: seq<byte>, at: nat, value: seq<byte>)
    requires at + |value| <= |storage|
    ensures Splice(storage, at, value)[at..at + |value|] == value
  {
  }

  lemma SlotsStore(widths: seq<nat>, storage: seq<byte>, n: nat, value: seq<byte>)
    requires n < |widths| && |storage| == TotalBytes(widths) && |value| == widths[n]
    ensures Offset(widths, n) + |value| <= |storage|
    ensures Slots(widths, Splice(storage, Offset(widths, n), value), n + 1) == Slots(widths, storage, n) + [value]
  {
    SlotsKeep(widths, storage, n, n, value);
    SplicedSlot(storage, Offset(widths, n), value);
  }

  /** Stores a register value at its place in a storage array. */
  method PutValue(a: array<byte>, at: nat, value: seq<byte>)
    requires at + |value| <= a.Length
    modifies a
    ensures a[..] == Splice(old(a[..]), at, value)
  {
    forall i | 0 <= i < |value| {
      a[at + i] := value[i];
    }
  }

  /** Decoding register `i` to its place extends the stored registers by the parsed value. */
  lemma ParseStored(widths: seq<nat>, payload: seq<byte>, storage: seq<byte>, i: nat, k: nat, w: nat)
    requires i < |widths| && k == Offset(widths, i) && w == widths[i]
    requires |storage| == TotalBytes(widths) && |payload| == 2 * TotalBytes(widths)
    requires Slots(widths, storage, i) == Parsed(widths, payload, i)
    ensures 2 * k + 2 * w <= |payload| && k + w <= |storage|
    ensures Slots(widths, Splice(storage, k, DecodeAt(payload, k, w)), i + 1) == Parsed(widths, payload, i + 1)
  {
    OffsetMonotone(widths, i + 1, |widths|);
    SlotsStore(widths, storage, i, ParsedReg(widths, payload, i));
  }

  /** Storing register `i`'s current value extends the stored registers by it. */
  lemma BackupStored(widths: seq<nat>, regs: seq<seq<byte>>, storage: seq<byte>, i: nat, k: nat)
    requires WellSized(widths, regs) && i < |widths| && k == Offset(widths, i)
    requires |storage| == TotalBytes(widths) && Slots(widths, storage, i) == regs[..i]
    ensures k + |regs[i]| <= |storage|
    ensures Slots(widths, Splice(storage, k, regs[i]), i + 1) == regs[..i + 1]
  {
    SlotsStore(widths, storage, i, regs[i]);
    assert regs[..i + 1] == regs[..i] + [regs[i]];
  }

  /** One round of the first loop: parse the new value of register `i` and save the current one. */
  method ParseOne(t: Target, payload: seq<byte>, newValues: array<byte>, backup: array<byte>, storageOffset: nat,
                  i: nat)
    returns (ret: int32)
    requires t.Valid() && newValues != backup && i < |t.widths|
    requires 2 * storageOffset + 2 * t.widths[i] <= |payload|
    requires storageOffset + t.widths[i] <= newValues.Length == backup.Length
    modifies t`calls, newValues, backup
    ensures t.calls == old(t.calls) + 1 && ret == Code(t.codes, old(t.calls))
    ensures newValues[..] == Splice(old(newValues[..]), storageOffset, DecodeAt(payload, storageOffset, t.widths[i]))
    ensures ret == 0 ==> backup[..] == Splice(old(backup[..]), storageOffset, t.regs[i])
  {
    var regSz, payloadOffset := t.widths[i], 2 * storageOffset;
    StrToHex(payload[payloadOffset..payloadOffset + 2 * regSz], newValues, storageOffset, regSz);
    var value;
    ret, value := t.ReadReg(i);
    if ret == 0 {
      PutValue(backup, storageOffset, value);
    }
  }

  /** The first `i` registers are parsed and saved. */
  ghost predicate Saved(widths: seq<nat>, payload: seq<byte>, regs: seq<seq<byte>>, newValues: seq<byte>,
                        backup: seq<byte>, i: nat)
    requires i <= |widths| && |payload| == 2 * TotalBytes(widths) && |regs| == |widths|
    requires |newValues| == |backup| == TotalBytes(widths)
  {
    Slots(widths, newValues, i) == Parsed(widths, payload, i) && Slots(widths, backup, i) == regs[..i]
  }

  /** That round, from one register to the next. */
  method ParseNext(t: Target, payload: seq<byte>, newValues: array<byte>, backup: array<byte>, storageOffset: nat,
                   i: nat)
    returns (ret: int32)
    requires t.Valid() && newValues != backup && i < |t.widths| && storageOffset == Offset(t.widths, i)
    requires newValues.Length == backup.Length == TotalBytes(t.widths) && |payload| == 2 * TotalBytes(t.widths)
    requires Saved(t.widths, payload, t.regs, newValues[..], backup[..], i)
    modifies t`calls, newValues, backup
    ensures t.calls == old(t.calls) + 1 && ret == Code(t.codes, old(t.calls))
    ensures ret == 0 ==> Saved(t.widths, payload, t.regs, newValues[..], backup[..], i + 1)
  {
    ParseStored(t.widths, payload, newValues[..], i, storageOffset, t.widths[i]);
    BackupStored(t.widths, t.regs, backup[..], i, storageOffset);
    ret := ParseOne(t, payload, newValues, backup, storageOffset, i);
  }

  /** The first loop of `process_reg_write`: parse the new values and back up the current ones. */
  method ParseAndBackup(t: Target, payload: seq<byte>, newValues: array<byte>, backup: array<byte>)
    returns (ret: int32)
    requires t.Valid() && newValues != backup
    requires newValues.Length == backup.Length == TotalBytes(t.widths) && |payload| == 2 * TotalBytes(t.widths)
    modifies t`calls, newValues, backup
    ensures var n := |t.widths|;
      var k := FirstFailure(t.codes, old(t.calls), n);
      if k < n then ret == Code(t.codes, old(t.calls) + k)
      else ret == 0 && t.calls == old(t.calls) + n
             && Slots(t.widths, newValues[..], n) == Parsed(t.widths, payload, n)
             && Slots(t.widths, backup[..], n) == t.regs
  {
    ghost var n, from := |t.widths|, t.calls;
    ghost var k := FirstFailure(t.codes, from, n);
    var storageOffset, i := 0, 0;
    while i < |t.widths|
      invariant 0 <= i <= k && storageOffset == Offset(t.widths, i) && t.calls == from + i
      invariant Saved(t.widths, payload, t.regs, newValues[..], backup[..], i)
    {
      FailsAt(t.codes, from, n, i);
      ret := ParseNext(t, payload, newValues, backup, storageOffset, i);
      if ret != 0 {
        assert i == k;
        return;
      }
      storageOffset := storageOffset + t.widths[i];
      i := i + 1;
    }
    assert i == k == n && t.regs[..i] == t.regs;
    ret := 0;
  }

  /** Writes register `i` from its place in a storage array. */
  method WriteFrom(t: Target, storage: array<byte>, storageOffset: nat, i: nat) returns (ret: int32)
    requires t.Valid() && storage.Length == TotalBytes(t.widths)
    requires i < |t.widths| && storageOffset == Offset(t.widths, i)
    modifies t
    ensures t.Valid() && t.calls == old(t.calls) + 1 && ret == Code(t.codes, old(t.calls))
    ensures t.regs == if ret == 0 then old(t.regs)[i := Slots(t.widths, storage[..], |t.widths|)[i]] else old(t.regs)
  {
    OffsetMonotone(t.widths, i + 1, |t.widths|);
    SlotsAt(t.widths, storage[..], |t.widths|, i);
    var value := storage[storageOffset..storageOffset + t.widths[i]];
    assert value == Slot(t.widths, storage[..], i);
    ret := t.WriteReg(i, value);
  }

  /** The second loop: commit until a write fails. */
  method Commit(t: Target, newValues: array<byte>) returns (failedRegno: int, errorCode: int32)
    requires t.Valid() && newValues.Length == TotalBytes(t.widths)
    modifies t
    ensures t.Valid()
    ensures var n, news := |t.widths|, Slots(t.widths, newValues[..], |t.widths|);
      var k := FirstFailure(t.codes, old(t.calls), n);
      && t.regs == Mixed(news, old(t.regs), k)
      && failedRegno == (if k < n then k else -1)
      && (k < n ==> t.calls == old(t.calls) + k + 1 && errorCode == Code(t.codes, t.calls - 1))
  {
    ghost var n, from := |t.widths|, t.calls;
    ghost var k := FirstFailure(t.codes, from, n);
    ghost var news, olds := Slots(t.widths, newValues[..], n), t.regs;
    var storageOffset, i := 0, 0;
    failedRegno, errorCode := -1, 0;
    while i < |t.widths|
      invariant 0 <= i <= k && storageOffset == Offset(t.widths, i)
      invariant t.Valid() && t.calls == from + i && t.regs == Mixed(news, olds, i)
    {
      FailsAt(t.codes, from, n, i);
      var ret := WriteFrom(t, newValues, storageOffset, i);
      if ret != 0 {
        assert i == k;
        return i, ret;
      }
      storageOffset := storageOffset + t.widths[i];
      i := i + 1;
    }
    assert i == k == n;
  }

  /** The third loop: restore the registers written before the failure; the results are ignored. */
  method Rollback(t: Target, backup: array<byte>, failedRegno: nat)
    requires t.Valid() && backup.Length == TotalBytes(t.widths) && failedRegno < |t.widths|
    modifies t
    ensures t.regs == Restored(old(t.regs), Slots(t.widths, backup[..], |t.widths|), t.codes, old(t.calls), failedRegno)
  {
    var storageOffset, i := 0, 0;
    while i < failedRegno
      invariant 0 <= i <= failedRegno && storageOffset == Offset(t.widths, i)
      invariant t.Valid() && t.calls == old(t.calls) + i
      invariant t.regs == Restored(old(t.regs), Slots(t.widths, backup[..], |t.widths|), t.codes, old(t.calls), i)
    {
      var _ := WriteFrom(t, backup, storageOffset, i);
      storageOffset := storageOffset + t.widths[i];
      i := i + 1;
    }
  }

  /** The text of the reply. */
  function ReplyText(reply: WriteReply): seq<byte>
  {
    match reply
    case Ok => Ascii("OK")
    case InvalidLength => Ascii("E22")
    case NoMemory => Ascii("E12")
    case Failed(code) => ErrorText(code)
  }

  /** The accesses from number `from` up to `to` succeed. */
  predicate Succeed(codes: Codes, from: nat, to: nat)
  {
    forall k :: from <= k < to ==> Code(codes, k) == 0
  }

  /** Access number `k` is the first of them that fails. */
  predicate FailsFirst(codes: Codes, from: nat, to: nat, k: nat)
  {
    from <= k < to && Code(codes, k) != 0 && Succeed(codes, from, k)
  }

  lemma {:induction false} FirstIs(codes: Codes, from: nat, n: nat, k: nat)
    requires FailsFirst(codes, from, from + n, k)
    ensures FirstFailure(codes, from, n) == k - from
    decreases n
  {
    if k > from { FirstIs(codes, from + 1, n - 1, k); }
  }

  lemma {:induction false} NoneIs(codes: Codes, from: nat, n: nat)
    requires Succeed(codes, from, from + n)
    ensures FirstFailure(codes, from, n) == n
    decreases n
  {
    if n > 0 { NoneIs(codes, from + 1, n - 1); }
  }

  /** What `G` answers, for any target, before it gets to the registers: E22 for a wrong length, E12 without memory. */
  lemma RefusalExact(widths: seq<nat>, olds: seq<seq<byte>>, payload: seq<byte>, hasMemory: bool, codes: Codes,
                     calls: nat)
    requires |olds| == |widths| && TotalBytes(widths) > 0 && (|payload| != 2 * TotalBytes(widths) || !hasMemory)
    ensures ReplyText(RegWrite(widths, olds, payload, hasMemory, codes, calls).0)
         == if |payload| != 2 * TotalBytes(widths) then Ascii("E22") else Ascii("E12")
  {
  }

  /** And when it does: the error of the first access that fails, reads before writes, and OK when none does. */
  lemma ReplyExact(widths: seq<nat>, olds: seq<seq<byte>>, payload: seq<byte>, codes: Codes, calls: nat, k: nat)
    requires |olds| == |widths| && TotalBytes(widths) > 0 && |payload| == 2 * TotalBytes(widths)
    ensures var to, text := calls + 2 * |widths|, ReplyText(RegWrite(widths, olds, payload, true, codes, calls).0);
      && (FailsFirst(codes, calls, to, k) ==> text == ErrorText(Code(codes, k)))
      && (Succeed(codes, calls, to) ==> text == Ascii("OK"))
  {
    var news := Parsed(widths, payload, |widths|);
    if FailsFirst(codes, calls, calls + 2 * |widths|, k) {
      WriteAllFails(olds, news, codes, calls, k);
    }
    if Succeed(codes, calls, calls + 2 * |widths|) {
      WriteAllWorks(olds, news, codes, calls);
    }
  }

  lemma WriteAllFails(olds: seq<seq<byte>>, news: seq<seq<byte>>, codes: Codes, calls: nat, k: nat)
    requires |olds| == |news| && FailsFirst(codes, calls, calls + 2 * |olds|, k)
    ensures WriteAll(olds, news, codes, calls).0 == Failed(Code(codes, k))
  {
    var n := |olds|;
    if k < calls + n {
      FirstIs(codes, calls, n, k);
    } else {
      NoneIs(codes, calls, n);
      FirstIs(codes, calls + n, n, k);
    }
  }

  lemma WriteAllWorks(olds: seq<seq<byte>>, news: seq<seq<byte>>, codes: Codes, calls: nat)
    requires |olds| == |news| && Succeed(codes, calls, calls + 2 * |olds|)
    ensures WriteAll(olds, news, codes, calls) == (Ok, news)
  {
    NoneIs(codes, calls, |olds|);
    NoneIs(codes, calls + |olds|, |olds|);
  }

  /** Sends the text of a reply. */
  method SendReply(conn: Conn, reply: WriteReply)
    modifies conn`out
    ensures conn.out == old(conn.out) + [Reply(ReplyText(reply))]
  {
    match reply {
      case Ok => conn.SendFixed("OK");
      case InvalidLength => conn.SendFixed("E22");
      case NoMemory => conn.SendFixed("E12");
      case Failed(code) => conn.SendError(code);
    }
  }

  /** The second half of `process_reg_write`: commit, and roll back if a write fails. */
  method CommitOrRollBack(t: Target, conn: Conn, newValues: array<byte>, backup: array<byte>)
    requires t.Valid() && newValues.Length == backup.Length == TotalBytes(t.widths)
    requires Slots(t.widths, backup[..], |t.widths|) == t.regs
    modifies t, conn`out
    ensures var (reply, regs) :=
        Committed(old(t.regs), Slots(t.widths, newValues[..], |t.widths|), t.codes, old(t.calls));
      t.regs == regs && conn.out == old(conn.out) + [Reply(ReplyText(reply))]
  {
    ghost var news, olds := Slots(t.widths, newValues[..], |t.widths|), t.regs;
    var failedRegno, errorCode := Commit(t, newValues);
    if failedRegno >= 0 {
      Rollback(t, backup, failedRegno);
      SendReply(conn, Failed(errorCode));
      return;
    }
    MixedAll(news, olds);
    SendReply(conn, Ok);
  }

  /** `process_reg_write`: `hasMemory` tells whether both allocations succeed. Every path sends one reply. */
  method ProcessRegWrite(t: Target, conn: Conn, payload: seq<byte>, hasMemory: bool)
    requires t.Valid()
    modifies t, conn`out
    ensures var (reply, regs) := RegWrite(t.widths, old(t.regs), payload, hasMemory, t.codes, old(t.calls));
      t.regs == regs && conn.out == old(conn.out) + [Reply(ReplyText(reply))]
  {
    var totalRegBytes := TotalBytes(t.widths);
    if totalRegBytes == 0 {
      SendReply(conn, Ok);
      return;
    }
    if |payload| != totalRegBytes * 2 {
      SendReply(conn, InvalidLength);
      return;
    }
    if !hasMemory {
      SendReply(conn, NoMemory);
      return;
    }
    var newValues, backup := new byte[totalRegBytes], new byte[totalRegBytes];
    var ret := ParseAndBackup(t, payload, newValues, backup);
    if ret != 0 {
      SendReply(conn, Failed(ret));
      return;
    }
    CommitOrRollBack(t, conn, newValues, backup);
  }
}
