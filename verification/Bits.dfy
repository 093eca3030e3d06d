/**
 * Numbers bit by bit, in two's complement: what the shifts, masks and casts of emu/src/emu.c make of an
 * instruction word, and what the adder makes of two registers.
 */
module Bits {
  import opened Bytes
  import opened Riscv

  /** Bit `i` of a number; a negative one has ones from its sign on. */
  function Bit(v: int, i: nat): bool
    decreases i
  {
    if i == 0 then v % 2 == 1 else Bit(v / 2, i - 1)
  }

  lemma {:induction false} BitAbove(v: int, k: nat, i: nat)
    ensures Bit(v / Pow2(k), i) == Bit(v, i + k)
    decreases k
  {
    if k > 0 {
      HalfFirst(v, k);
      BitAbove(v / 2, k - 1, i);
    }
  }

  lemma HalfFirst(v: int, k: nat)
    requires k > 0
    ensures v / Pow2(k) == v / 2 / Pow2(k - 1)
  {
    NestedDiv(v, Pow2(k - 1));
  }

  lemma NestedDiv(v: int, p: nat)
    requires p > 0
    ensures v / (2 * p) == v / 2 / p
  {
    var h := v / 2;
    var q, r := h / p, h % p;
    assert v == 2 * h + v % 2 && h == p * q + r;
    assert v == 2 * p * q + (2 * r + v % 2);
    Quotient(v, 2 * p, q, 2 * r + v % 2);
  }

  lemma Quotient(v: int, d: nat, q: int, r: nat)
    requires v == d * q + r && r < d
    ensures v / d == q && v % d == r
  {
    var q', r' := v / d, v % d;
    assert d * (q - q') == r' - r;
    SmallMultiple(d, q - q', r' - r);
  }

  lemma SmallMultiple(d: int, k: int, s: int)
    requires d * k == s && s < d && s + d > 0
    ensures k == 0
  {
    if k > 0 {
      AtLeastOnce(d, k);
    }
    if k < 0 {
      AtLeastOnce(d, -k);
    }
  }

  lemma AtLeastOnce(d: int, k: int)
    requires d > 0 && k > 0
    ensures d * k >= d
  {
  }

  /** The bits below `n` are all that a remainder keeps. */
  lemma {:induction false} BitOfRest(v: int, n: nat, i: nat)
    requires i < n
    ensures Bit(v % Pow2(n), i) == Bit(v, i)
    decreases i
  {
    HalfRest(v, n);
    if i > 0 { BitOfRest(v / 2, n - 1, i - 1); }
  }

  lemma HalfRest(v: int, n: nat)
    requires n > 0
    ensures v % Pow2(n) / 2 == v / 2 % Pow2(n - 1) && v % Pow2(n) % 2 == v % 2
  {
    var p := Pow2(n - 1);
    var h := v / 2;
    var q, r := h / p, h % p;
    assert v == 2 * h + v % 2 && h == p * q + r;
    assert v == 2 * p * q + (2 * r + v % 2);
    Quotient(v, 2 * p, q, 2 * r + v % 2);
  }

  /** A number that fits `n` bits has its sign in all of the upper ones. */
  lemma {:induction false} SignBits(v: int, n: nat, i: nat)
    requires n > 0 && 0 <= v + Pow2(n - 1) && v < Pow2(n - 1) && i >= n - 1
    ensures Bit(v, i) <==> v < 0
    decreases i
  {
    if n > 1 {
      SignBits(v / 2, n - 1, i - 1);
    } else if i > 0 {
      SignBits(v / 2, 1, i - 1);
    }
  }

  /** Two numbers that differ by a multiple of 2^n agree below bit `n`. */
  lemma SameLow(v: int, w: int, n: nat, i: nat)
    requires i < n && v % Pow2(n) == w % Pow2(n)
    ensures Bit(v, i) == Bit(w, i)
  {
    BitOfRest(v, n, i);
    BitOfRest(w, n, i);
  }

  // ---------------------------------------------------------------- the adder

  predicate Xor(a: bool, b: bool) { a != b }

  /** Bit `i` of a ripple-carry adder: sum and carry of a full adder at every position. */
  function Ripple(a: int, b: int, carry: bool, i: nat): bool
    decreases i
  {
    var x, y := Bit(a, 0), Bit(b, 0);
    if i == 0 then Xor(Xor(x, y), carry)
    else Ripple(a / 2, b / 2, (x && y) || (carry && Xor(x, y)), i - 1)
  }

  lemma {:induction false} SumRipples(a: int, b: int, carry: bool, i: nat)
    ensures Bit(a + b + if carry then 1 else 0, i) == Ripple(a, b, carry, i)
    decreases i
  {
    var x, y, c := Bit(a, 0), Bit(b, 0), if carry then 1 else 0;
    var out := (x && y) || (carry && Xor(x, y));
    assert (a + b + c) / 2 == a / 2 + b / 2 + if out then 1 else 0;
    if i > 0 { SumRipples(a / 2, b / 2, out, i - 1); }
  }

  // ---------------------------------------------------------------- casts and immediates

  lemma Powers()
    ensures Pow2(5) == 32 && Pow2(7) == 0x80 && Pow2(8) == 0x100 && Pow2(10) == 0x400 && Pow2(11) == 0x800
    ensures Pow2(12) == 0x1000
  {
    assert Pow2(5) == 32;
    assert Pow2(8) == 8 * Pow2(5);
    assert Pow2(10) == 4 * Pow2(8);
  }

  lemma MorePowers()
    ensures Pow2(20) == 0x10_0000 && Pow2(25) == 0x200_0000 && Pow2(31) == 0x8000_0000 && Pow2(32) == W32
  {
    Powers();
    assert Pow2(16) == 16 * Pow2(12);
    assert Pow2(20) == 16 * Pow2(16);
    assert Pow2(25) == 32 * Pow2(20);
    assert Pow2(29) == 16 * Pow2(25);
    assert Pow2(31) == 4 * Pow2(29);
  }

  lemma DoublePower(n: nat)
    ensures Pow2(n + 4) == 16 * Pow2(n)
  {
    assert Pow2(n + 2) == 4 * Pow2(n);
  }

  lemma WordPower()
    ensures Pow2(64) == W64
  {
    MorePowers();
    DoublePower(32);
    DoublePower(36);
    DoublePower(40);
    DoublePower(44);
    DoublePower(48);
    DoublePower(52);
    DoublePower(56);
    DoublePower(60);
  }

  /** A conversion to `uint64_t` keeps the lower 64 bits. */
  lemma U64Bits(v: int, i: nat)
    requires i < 64
    ensures Bit(U64(v), i) == Bit(v, i)
  {
    WordPower();
    BitOfRest(v, 64, i);
  }

  /** A cast to `int32_t` keeps the lower 32 bits and repeats the last of them. */
  lemma Signed32Bits(v: int, i: nat)
    ensures Bit(Signed32(v), i) == Bit(v, if i < 31 then i else 31)
  {
    MorePowers();
    SameLow(Signed32(v), v, 32, if i < 31 then i else 31);
    if i > 31 {
      SignBits(Signed32(v), 32, i);
      SignBits(Signed32(v), 32, 31);
    }
  }

  /** The sign of a 12-bit number in all upper bits. */
  lemma Signed12Bits(u: nat, imm: int, i: nat)
    requires u < 4096 && imm == if u < 2048 then u else u - 4096
    ensures Bit(imm, i) == Bit(u, if i < 11 then i else 11)
  {
    Powers();
    SameLow(imm, u, 12, if i < 11 then i else 11);
    if i > 11 {
      SignBits(imm, 12, i);
      SignBits(imm, 12, 11);
    }
  }

  /** `(int32_t) (inst & 0xfff00000) >> 20` */
  lemma ImmIBits(raw: word, i: nat)
    ensures Bit(ImmI(raw), i) == Bit(raw, if i < 11 then i + 20 else 31)
  {
    MorePowers();
    Signed12Bits(raw / 0x10_0000, ImmI(raw), i);
    BitAbove(raw, 20, if i < 11 then i else 11);
  }

  /** `((int32_t) (inst & 0xfe000000) >> 20) | ((inst >> 7) & 0x1f)` */
  lemma ImmSBits(raw: word, i: nat)
    ensures Bit(ImmS(raw), i) == Bit(raw, if i < 5 then i + 7 else if i < 11 then i + 20 else 31)
  {
    var high, low := raw / 0x200_0000, raw / 0x80 % 32;
    var u, k := high * 32 + low, if i < 11 then i else 11;
    Signed12Bits(u, ImmS(raw), i);
    SplitBits(u, high, low, k);
    if k < 5 {
      LowField(raw, k);
    } else {
      MorePowers();
      BitAbove(raw, 25, k - 5);
    }
  }

  lemma SplitBits(u: nat, high: nat, low: nat, k: nat)
    requires u == high * 32 + low && low < 32
    ensures Bit(u, k) == if k < 5 then Bit(low, k) else Bit(high, k - 5)
  {
    Powers();
    if k < 5 {
      SameLow(u, low, 5, k);
    } else {
      BitAbove(u, 5, k - 5);
    }
  }

  lemma LowField(raw: word, k: nat)
    requires k < 5
    ensures Bit(raw / 0x80 % 32, k) == Bit(raw, k + 7)
  {
    Powers();
    BitOfRest(raw / 0x80, 5, k);
    BitAbove(raw, 7, k);
  }

  /** `(int32_t) (inst & 0xfffff000)` */
  lemma ImmUBits(raw: word, i: nat)
    ensures Bit(ImmU(raw), i) == (i >= 12 && Bit(raw, if i < 31 then i else 31))
  {
    var v, k := raw / 0x1000 * 0x1000, if i < 31 then i else 31;
    Signed32Bits(v, i);
    Powers();
    if k < 12 {
      SameLow(v, 0, 12, k);
      NoBits(k);
    } else {
      BitAbove(v, 12, k - 12);
      BitAbove(raw, 12, k - 12);
    }
  }

  lemma {:induction false} NoBits(i: nat)
    ensures !Bit(0, i)
  {
    if i > 0 { NoBits(i - 1); }
  }

  /** imm[20|10:1|11|19:12] from inst[31|30:21|20|19:12], as the manual places them. */
  lemma ImmJBits(raw: word, i: nat)
    ensures Bit(ImmJ(raw), i) == (i > 0 && Bit(raw, if i < 11 then i + 20 else if i == 11 then 20 else
                                                    if i < 20 then i else 31))
  {
    var w := ImmJ(raw);
    Powers();
    MorePowers();
    PartsJ(raw, w);
    if 0 < i < 11 {
      FieldJ(w, 1, raw, 21, 10, i - 1);
    } else if i == 11 {
      FieldJ(w, 11, raw, 20, 1, 0);
    } else if 11 < i < 20 {
      FieldJ(w, 12, raw, 12, 8, i - 12);
    } else if i >= 20 {
      TopJ(raw, w, i);
    }
  }

  lemma PartsJ(raw: word, w: int)
    requires w == ImmJ(raw)
    ensures w % 2 == 0 && w / 2 % 0x400 == raw / 0x20_0000 % 0x400 && w / 0x800 % 2 == raw / 0x10_0000 % 2
    ensures w / 0x1000 % 0x100 == raw / 0x1000 % 0x100 && w / 0x10_0000 == -(raw / 0x8000_0000)
  {
    WeighJ(raw / 0x20_0000 % 1024, raw / 0x10_0000 % 2, raw / 0x1000 % 256, raw / 0x8000_0000, w);
  }

  lemma WeighJ(a: nat, b: nat, c: nat, d: int, w: int)
    requires a < 1024 && b < 2 && c < 256 && 0 <= d < 2 && w == a * 2 + b * 0x800 + c * 0x1000 - d * 0x10_0000
    ensures w % 2 == 0 && w / 2 % 0x400 == a && w / 0x800 % 2 == b
    ensures w / 0x1000 % 0x100 == c && w / 0x10_0000 == -d
  {
    var upper := c - 0x100 * d;
    var half := b + 2 * upper;
    Quotient(w, 2, a + 0x400 * half, 0);
    Quotient(a + 0x400 * half, 0x400, half, a);
    Quotient(w, 0x800, half, 2 * a);
    Quotient(half, 2, upper, b);
    Quotient(w, 0x1000, upper, 2 * a + 0x800 * b);
    Quotient(upper, 0x100, -d, c);
    Quotient(w, 0x10_0000, -d, 2 * a + 0x800 * b + 0x1000 * c);
  }

  /** `n` bits of one number from `a` on are those of another from `b` on. */
  lemma FieldJ(w: int, a: nat, raw: int, b: nat, n: nat, k: nat)
    requires k < n && w / Pow2(a) % Pow2(n) == raw / Pow2(b) % Pow2(n)
    ensures Bit(w, a + k) == Bit(raw, b + k)
  {
    SameLow(w / Pow2(a), raw / Pow2(b), n, k);
    BitAbove(w, a, k);
    BitAbove(raw, b, k);
  }

  lemma TopJ(raw: word, w: int, i: nat)
    requires i >= 20 && w / 0x10_0000 == -(raw / 0x8000_0000)
    ensures Bit(w, i) == Bit(raw, 31)
  {
    MorePowers();
    BitAbove(w, 20, i - 20);
    BitAbove(raw, 31, 0);
    NegativeBit(raw / 0x8000_0000, i - 20);
  }

  lemma NegativeBit(d: int, i: nat)
    requires 0 <= d < 2
    ensures Bit(-d, i) == Bit(d, 0)
  {
    SignBits(-d, 1, i);
  }
}
