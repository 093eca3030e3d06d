/** Bytes, the protocol's special characters and the few shared datatypes. */
module Bytes {
  /** C's `uint8_t`. */
  newtype byte = x: int | 0 <= x < 256

  datatype Option<+T> = None | Some(value: T)

  const DOLLAR: byte := 0x24
  const HASH: byte := 0x23
  const COLON: byte := 0x3a
  const ESCAPE: byte := 0x7d
  const INTR_CHAR: byte := 0x03

  /** Number of checksum digits after '#'. */
  const CSUM_SIZE := 2

  /** Index of the first `b` in `s`, or |s| when there is none: `memchr`, `strchr` and the scan for '$'. */
  function IndexOf(s: seq<byte>, b: byte): (i: nat)
    ensures i <= |s|
    ensures b !in s[..i]
    ensures i < |s| ==> s[i] == b
    ensures (i == |s|) == (b !in s)
  {
    if s == [] then 0
    else if s[0] == b then 0
    else
      var k := IndexOf(s[1..], b);
      assert s[..1 + k] == [s[0]] + s[1..][..k];
      1 + k
  }

  /** The first occurrence is determined by its two defining facts. */
  lemma IndexOfIs(s: seq<byte>, b: byte, i: nat)
    requires i < |s| && s[i] == b && b !in s[..i]
    ensures IndexOf(s, b) == i
  {
    assert forall k :: 0 <= k < i ==> s[k] == s[..i][k];
    assert forall k :: 0 <= k < IndexOf(s, b) ==> s[k] == s[..IndexOf(s, b)][k];
  }

  /** More input does not move a first occurrence that is already there. */
  lemma IndexOfAppend(s: seq<byte>, t: seq<byte>, b: byte)
    ensures IndexOf(s + t, b) == if b in s then IndexOf(s, b) else |s| + IndexOf(t, b)
  {
    if b in s {
      var i := IndexOf(s, b);
      assert (s + t)[..i] == s[..i];
      IndexOfIs(s + t, b, i);
    } else if b in t {
      var i := IndexOf(t, b);
      assert (s + t)[..|s| + i] == s + t[..i];
      IndexOfIs(s + t, b, |s| + i);
    } else {
      assert b !in s + t;
    }
  }

  function Pow2(n: nat): (p: nat)
    ensures p >= 1
  {
    if n == 0 then 1 else 2 * Pow2(n - 1)
  }

  lemma {:induction false} Pow2Grows(m: nat, n: nat)
    requires m <= n
    ensures Pow2(m) <= Pow2(n)
  {
    if m < n { Pow2Grows(m, n - 1); }
  }

  /** The characters of a string literal. */
  function Ascii(s: string): (b: seq<byte>)
    ensures |b| == |s|
  {
    seq(|s|, i requires 0 <= i < |s| => (s[i] as int % 256) as byte)
  }
}
