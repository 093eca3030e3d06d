/** The `read_len` and `write_len` macros of emu/src/emu.c: little-endian access to byte memory, for any width. */
module LittleEndian {
  import opened Bytes

  /** 2^(8n) */
  function Pow256(n: nat): (p: nat)
    ensures p >= 1
  {
    if n == 0 then 1 else 256 * Pow256(n - 1)
  }

  function FromBytes(s: seq<byte>): nat
  {
    if s == [] then 0 else s[0] as int + 256 * FromBytes(s[1..])
  }

  function ToBytes(v: nat, n: nat): (s: seq<byte>)
    ensures |s| == n
    decreases n
  {
    if n == 0 then [] else [(v % 256) as byte] + ToBytes(v / 256, n - 1)
  }

  lemma {:induction false} FromBytesBound(s: seq<byte>)
    ensures FromBytes(s) < Pow256(|s|)
  {
    if s != [] { FromBytesBound(s[1..]); }
  }

  /** Bytes survive a trip through the number they stand for. */
  lemma {:induction false} ToFromBytes(s: seq<byte>)
    ensures ToBytes(FromBytes(s), |s|) == s
  {
    if s != [] {
      ToFromBytes(s[1..]);
      DivRem(s[0] as int, FromBytes(s[1..]));
    }
  }

  lemma DivRem(low: nat, high: nat)
    requires low < 256
    ensures (low + 256 * high) % 256 == low && (low + 256 * high) / 256 == high
  {
  }

  /** A number survives a trip through `n` bytes modulo 2^(8n). */
  lemma {:induction false} FromToBytes(v: nat, n: nat)
    ensures FromBytes(ToBytes(v, n)) == v % Pow256(n)
    decreases n
  {
    if n > 0 {
      FromToBytes(v / 256, n - 1);
      var t := ToBytes(v, n);
      assert t[1..] == ToBytes(v / 256, n - 1);
      ModStep(v, Pow256(n - 1));
    }
  }

  lemma ModStep(v: nat, p: nat)
    requires p > 0
    ensures v % 256 + 256 * (v / 256 % p) == v % (256 * p)
  {
    var q, r := v / 256 / p, v / 256 % p;
    assert v / 256 == q * p + r;
    assert v == 256 * p * q + (256 * r + v % 256);
    DivUnique(v, 256 * p, q, 256 * r + v % 256);
  }

  /** Quotient and remainder are determined by what they make up. */
  lemma DivUnique(v: nat, d: nat, q: nat, r: nat)
    requires d > 0 && v == d * q + r && r < d
    ensures v / d == q && v % d == r
  {
    QuotientUnique(d, q, r, v / d, v % d);
  }

  lemma QuotientUnique(d: nat, q: nat, r: nat, q': nat, r': nat)
    requires r < d && r' < d && d * q + r == d * q' + r'
    ensures q == q' && r == r'
  {
    if q < q' {
      MulAtLeast(d, q, q');
    } else if q' < q {
      MulAtLeast(d, q', q);
    }
  }

  lemma {:induction false} MulAtLeast(d: nat, a: nat, b: nat)
    requires a < b
    ensures d * b >= d * a + d
    decreases b
  {
    OneMore(d, b - 1);
    if a + 1 < b { MulAtLeast(d, a, b - 1); }
  }

  lemma OneMore(d: nat, x: nat)
    ensures d * (x + 1) == d * x + d
  {
  }

  lemma {:induction false} FromBytesSnoc(s: seq<byte>, b: byte)
    ensures FromBytes(s + [b]) == FromBytes(s) + b as int * Pow256(|s|)
  {
    if s == [] {
      assert [b][1..] == [];
    } else {
      assert (s + [b])[1..] == s[1..] + [b];
      FromBytesSnoc(s[1..], b);
      Scale(b as int, Pow256(|s| - 1));
    }
  }

  lemma Scale(b: nat, p: nat)
    ensures 256 * (b * p) == b * (256 * p)
  {
  }

  lemma {:induction false} ToBytesAt(v: nat, n: nat, i: nat)
    requires i < n
    ensures ToBytes(v, n)[i] as int == v / Pow256(i) % 256
    decreases i
  {
    if i > 0 {
      ToBytesAt(v / 256, n - 1, i - 1);
      DivDiv(v, Pow256(i - 1));
    }
  }

  lemma DivDiv(v: nat, p: nat)
    requires p > 0
    ensures v / 256 / p == v / (256 * p)
  {
    var q, r := v / 256 / p, v / 256 % p;
    assert v / 256 == q * p + r;
    assert v == 256 * p * q + (256 * r + v % 256);
    DivUnique(v, 256 * p, q, 256 * r + v % 256);
  }

  // ---------------------------------------------------------------- memory

  function Load(mem: seq<byte>, addr: nat, n: nat): nat
    requires addr + n <= |mem|
  {
    FromBytes(mem[addr..addr + n])
  }

  function Store(mem: seq<byte>, addr: nat, n: nat, v: nat): (r: seq<byte>)
    requires addr + n <= |mem|
    ensures |r| == |mem|
  {
    mem[..addr] + ToBytes(v, n) + mem[addr + n..]
  }

  /** Reading back what was written gives the value modulo 2^(8n). */
  lemma LoadStore(mem: seq<byte>, addr: nat, n: nat, v: nat)
    requires addr + n <= |mem|
    ensures Load(Store(mem, addr, n, v), addr, n) == v % Pow256(n)
  {
    FromToBytes(v, n);
    assert Store(mem, addr, n, v)[addr..addr + n] == ToBytes(v, n);
  }

  /** Writing back what was read changes nothing. */
  lemma StoreLoad(mem: seq<byte>, addr: nat, n: nat)
    requires addr + n <= |mem|
    ensures Store(mem, addr, n, Load(mem, addr, n)) == mem
  {
    ToFromBytes(mem[addr..addr + n]);
  }

  /** A write is seen by exactly the reads that overlap it: the others read what they read before. */
  lemma LoadElsewhere(mem: seq<byte>, addr: nat, n: nat, v: nat, other: nat, k: nat)
    requires addr + n <= |mem| && other + k <= |mem|
    requires other + k <= addr || addr + n <= other
    ensures Load(Store(mem, addr, n, v), other, k) == Load(mem, other, k)
  {
    assert Store(mem, addr, n, v)[other..other + k] == mem[other..other + k];
  }

  lemma StoresCommute(mem: seq<byte>, a: nat, n: nat, v: nat, b: nat, k: nat, w: nat)
    requires a + n <= b && b + k <= |mem|
    ensures Store(Store(mem, a, n, v), b, k, w) == Store(Store(mem, b, k, w), a, n, v)
  {
    var l, r := Store(Store(mem, a, n, v), b, k, w), Store(Store(mem, b, k, w), a, n, v);
    var all := mem[..a] + ToBytes(v, n) + mem[a + n..b] + ToBytes(w, k) + mem[b + k..];
    assert Store(mem, a, n, v)[..b] == mem[..a] + ToBytes(v, n) + mem[a + n..b];
    assert Store(mem, a, n, v)[b + k..] == mem[b + k..];
    assert Store(mem, b, k, w)[..a] == mem[..a];
    assert Store(mem, b, k, w)[a + n..] == mem[a + n..b] + ToBytes(w, k) + mem[b + k..];
    assert l == all;
    assert r == all;
  }

  /** `read_len`: `value |= byte << (i << 3)`, where the bytes so far occupy the bits below. */
  method ReadLen(mem: array<byte>, addr: nat, bytes: nat) returns (value: nat)
    requires addr + bytes <= mem.Length
    ensures value == Load(mem[..], addr, bytes)
  {
    value := 0;
    var shift := 1;
    ghost var s := mem[..];
    for i := 0 to bytes
      invariant value == FromBytes(s[addr..addr + i]) && shift == Pow256(i)
    {
      FromBytesSnoc(s[addr..addr + i], s[addr + i]);
      assert s[addr..addr + (i + 1)] == s[addr..addr + i] + [s[addr + i]];
      value := value + mem[addr + i] as int * shift;
      shift := 256 * shift;
    }
  }

  /** `write_len`: byte `i` gets `(value >> (i << 3)) & 0xff`. */
  method WriteLen(mem: array<byte>, addr: nat, bytes: nat, value: nat)
    requires addr + bytes <= mem.Length
    modifies mem
    ensures mem[..] == Store(old(mem[..]), addr, bytes, value)
  {
    ghost var was, out := mem[..], ToBytes(value, bytes);
    var rest := value;
    for i := 0 to bytes
      invariant rest == value / Pow256(i)
      invariant mem[..] == was[..addr] + out[..i] + was[addr + i..]
    {
      ToBytesAt(value, bytes, i);
      NextByte(value, i);
      ghost var before := mem[..];
      mem[addr + i] := (rest % 256) as byte;
      assert out[..i + 1] == out[..i] + [out[i]];
      assert mem[..] == before[addr + i := out[i]];
      rest := rest / 256;
    }
    assert out[..bytes] == out;
  }

  lemma NextByte(v: nat, i: nat)
    ensures v / Pow256(i) / 256 == v / Pow256(i + 1)
  {
    DivDivBy(v, Pow256(i));
  }

  lemma DivDivBy(v: nat, p: nat)
    requires p > 0
    ensures v / p / 256 == v / (256 * p)
  {
    var a := v / p;
    var q, r := a / 256, a % 256;
    var low := v - p * a;
    assert low == v % p;
    assert p * a == p * (256 * q + r) == 256 * p * q + p * r;
    MulUpTo(p, r);
    DivUnique(v, 256 * p, q, p * r + low);
  }

  lemma MulUpTo(p: nat, r: nat)
    requires r < 256
    ensures p * r + p <= 256 * p
  {
    assert 256 * p == p * r + p * (256 - r);
    MulAtLeast(p, 0, 256 - r);
  }
}
