/** src/regbuf.c: the scratch buffer for one register value, which doubles until a request fits. */
module RegBuf {
  import opened Bytes

  /** `size_t` values lie below this. */
  const SIZE_MOD := 0x1_0000_0000_0000_0000
  /** The largest power of two a `size_t` can hold. */
  const TOP := 0x8000_0000_0000_0000

  /** `sz <<= 1` in a `size_t`. */
  function Doubled(sz: nat): nat
  {
    2 * sz % SIZE_MOD
  }

  /** The sizes the buffer can have: eight bytes doubled `k` times. */
  function SizeAt(k: nat): nat
  {
    8 * Pow2(k)
  }

  const MAX_DOUBLINGS := 60

  lemma TopSize()
    ensures SizeAt(MAX_DOUBLINGS) == TOP
  {
    assert Pow2(10) == 1024 by { assert Pow2(5) == 32; }
    Pow2Sum(10, 10);
    Pow2Sum(20, 20);
    Pow2Sum(40, 20);
  }

  lemma {:induction false} Pow2Sum(m: nat, n: nat)
    ensures Pow2(m + n) == Pow2(m) * Pow2(n)
  {
    if n > 0 { Pow2Sum(m, n - 1); }
  }

  lemma DoubledSize(k: nat)
    requires k < MAX_DOUBLINGS
    ensures Doubled(SizeAt(k)) == SizeAt(k + 1)
  {
    TopSize();
    Pow2Grows(k + 1, MAX_DOUBLINGS);
  }

  /** The sizes the doubling loop runs through, wrap-around included. */
  function SizeAfter(sz: nat, rounds: nat): nat
    decreases rounds
  {
    if rounds == 0 then sz else SizeAfter(Doubled(sz), rounds - 1)
  }

  /**
   * The loop reaches a request of `request` bytes, from any size it can have, exactly when a `size_t`
   * power of two does.
   */
  lemma DoublingTerminates(k: nat, request: nat)
    requires k <= MAX_DOUBLINGS
    ensures (exists rounds: nat :: SizeAfter(SizeAt(k), rounds) >= request) <==> request <= TOP
  {
    if request <= TOP {
      ReachesTop(k);
      TopSize();
      assert SizeAfter(SizeAt(k), MAX_DOUBLINGS - k) >= request;
    } else {
      forall rounds: nat ensures SizeAfter(SizeAt(k), rounds) < request {
        NeverAboveTop(k, rounds);
      }
    }
  }

  lemma {:induction false} ReachesTop(k: nat)
    requires k <= MAX_DOUBLINGS
    ensures SizeAfter(SizeAt(k), MAX_DOUBLINGS - k) == SizeAt(MAX_DOUBLINGS)
    decreases MAX_DOUBLINGS - k
  {
    if k < MAX_DOUBLINGS {
      DoubledSize(k);
      ReachesTop(k + 1);
    }
  }

  lemma {:induction false} NeverAboveTop(k: nat, rounds: nat)
    requires k <= MAX_DOUBLINGS
    ensures SizeAfter(SizeAt(k), rounds) <= TOP
    decreases rounds
  {
    TopSize();
    Pow2Grows(k, MAX_DOUBLINGS);
    if rounds > 0 {
      if k < MAX_DOUBLINGS {
        DoubledSize(k);
        NeverAboveTop(k + 1, rounds - 1);
      } else {
        StaysZero(rounds - 1);
      }
    }
  }

  lemma {:induction false} StaysZero(rounds: nat)
    ensures SizeAfter(0, rounds) == 0
  {
    if rounds > 0 { StaysZero(rounds - 1); }
  }

  class RegBuf {
    var sz: nat
    var buf: array?<byte>
    /** How often the size has been doubled. */
    ghost var k: nat

    ghost predicate Valid()
      reads this
    {
      && k <= MAX_DOUBLINGS && sz == SizeAt(k)
      && (buf != null ==> buf.Length == sz)
    }

    /** `regbuf_init`. */
    constructor (hasMemory: bool)
      ensures Valid() && sz == 8 && (buf != null <==> hasMemory)
    {
      sz, k := 8, 0;
      if hasMemory {
        buf := new byte[8];
      } else {
        buf := null;
      }
    }

    /** `regbuf_get`: the size is the least one that fits, and an old buffer that fits is kept. */
    method Get(request: nat, hasMemory: bool) returns (r: array?<byte>)
      requires Valid()
      requires request <= TOP
      modifies this
      ensures Valid() && r == buf
      ensures request <= old(sz) ==> sz == old(sz) && r == old(buf)
      ensures request > old(sz) ==> request <= sz < 2 * request && old(k) < k && (r != null <==> hasMemory)
      ensures r != null ==> r.Length >= request
    {
      if request <= sz {
        return buf;
      }
      buf := null;
      TopSize();
      while request > sz
        invariant old(k) <= k <= MAX_DOUBLINGS && sz == SizeAt(k) && buf == null
        invariant sz < 2 * request && (k == old(k) ==> sz == old(sz))
        decreases MAX_DOUBLINGS - k
      {
        DoubledSize(k);
        sz := Doubled(sz);
        k := k + 1;
      }
      if hasMemory {
        buf := new byte[sz];
      }
      return buf;
    }
  }
}
