/**
 * src/utils/translate.c and src/utils/csum.c: the hex codec, the in-place unescape of binary data
 * and the modulo-256 checksum. Shifts and masks are written as division and remainder; the lemmas
 * over `bv8` show, for every bit pattern, that the source's bit operations compute just that.
 */
module Codec {
  import opened Bytes

  // ---------------------------------------------------------------- hex

  /** Entry `nibble` of the table "0123456789abcdef". */
  function HexDigit(nibble: byte): byte
    requires nibble < 16
  {
    if nibble < 10 then 0x30 + nibble else 0x57 + nibble
  }

  function HexEncode(s: seq<byte>): (t: seq<byte>)
    ensures |t| == 2 * |s|
  {
    if s == [] then [] else [HexDigit(s[0] / 16), HexDigit(s[0] % 16)] + HexEncode(s[1..])
  }

  /** The value `char_to_hex` gives any character, hex digit or not. */
  function CharToHex(ch: byte): byte
  {
    ((ch as int + if ch / 64 % 2 == 1 then 9 else 0) % 16) as byte
  }

  function DecodePair(high: byte, low: byte): byte
  {
    16 * CharToHex(high) + CharToHex(low)
  }

  /** The first `n` pairs of characters, each mapped to a byte. */
  function MapPairs(t: seq<byte>, n: nat, f: (byte, byte) -> byte): (s: seq<byte>)
    requires 2 * n <= |t|
    ensures |s| == n
  {
    seq(n, i requires 0 <= i < n => f(t[2 * i], t[2 * i + 1]))
  }

  lemma MapPairsSplit(t: seq<byte>, k: nat, w: nat, f: (byte, byte) -> byte)
    requires 2 * k + 2 * w <= |t|
    ensures MapPairs(t, k + w, f) == MapPairs(t, k, f) + MapPairs(t[2 * k..2 * k + 2 * w], w, f)
  {
  }

  lemma MapPairsSnoc(t: seq<byte>, k: nat, f: (byte, byte) -> byte)
    requires 2 * k + 2 <= |t|
    ensures MapPairs(t, k + 1, f) == MapPairs(t, k, f) + [f(t[2 * k], t[2 * k + 1])]
  {
  }

  /** The `bytes` bytes `str_to_hex` stores: it decodes any characters. */
  function HexDecode(t: seq<byte>, bytes: nat): (s: seq<byte>)
    requires 2 * bytes <= |t|
    ensures |s| == bytes
  {
    MapPairs(t, bytes, DecodePair)
  }

  predicate IsHexDigit(ch: byte)
  {
    0x30 <= ch <= 0x39 || 0x41 <= ch <= 0x46 || 0x61 <= ch <= 0x66
  }

  predicate AllHexDigits(t: seq<byte>)
  {
    forall ch :: ch in t ==> IsHexDigit(ch)
  }

  function LowerDigit(ch: byte): byte
  {
    if 0x41 <= ch <= 0x46 then ch + 0x20 else ch
  }

  function Lower(t: seq<byte>): (l: seq<byte>)
    ensures |l| == |t|
  {
    seq(|t|, i requires 0 <= i < |t| => LowerDigit(t[i]))
  }

  lemma {:induction false} HexEncodeAt(s: seq<byte>, i: nat)
    requires i < |s|
    ensures HexEncode(s)[2 * i] == HexDigit(s[i] / 16) && HexEncode(s)[2 * i + 1] == HexDigit(s[i] % 16)
    decreases i
  {
    if i > 0 {
      HexEncodeAt(s[1..], i - 1);
      assert HexEncode(s)[2..] == HexEncode(s[1..]);
    }
  }

  lemma DigitsDecode(b: byte)
    ensures DecodePair(HexDigit(b / 16), HexDigit(b % 16)) == b
  {
  }

  lemma HexDecodeEncode(s: seq<byte>)
    ensures HexDecode(HexEncode(s), |s|) == s
  {
    forall i | 0 <= i < |s| ensures HexDecode(HexEncode(s), |s|)[i] == s[i] {
      HexEncodeAt(s, i);
      DigitsDecode(s[i]);
    }
  }

  lemma {:induction false} HexEncodeDigits(s: seq<byte>)
    ensures AllHexDigits(HexEncode(s)) && Lower(HexEncode(s)) == HexEncode(s)
  {
    if s != [] {
      HexEncodeDigits(s[1..]);
      var t := HexEncode(s);
      assert t[2..] == HexEncode(s[1..]);
      SplitPair(t);
    }
  }

  lemma PairRoundTrip(high: byte, low: byte)
    ensures var b := DecodePair(high, low);
      HexDigit(b / 16) == LowerDigit(high) && HexDigit(b % 16) == LowerDigit(low)
      <==> IsHexDigit(high) && IsHexDigit(low)
  {
    var b := DecodePair(high, low);
    assert b / 16 == CharToHex(high) && b % 16 == CharToHex(low);
  }

  lemma SplitPair(t: seq<byte>)
    requires |t| >= 2
    ensures Lower(t) == [LowerDigit(t[0]), LowerDigit(t[1])] + Lower(t[2..])
    ensures AllHexDigits(t) <==> IsHexDigit(t[0]) && IsHexDigit(t[1]) && AllHexDigits(t[2..])
  {
    assert t == [t[0], t[1]] + t[2..];
  }

  lemma PairsEqual(a: byte, b: byte, s: seq<byte>, c: byte, d: byte, t: seq<byte>)
    ensures [a, b] + s == [c, d] + t <==> a == c && b == d && s == t
  {
    var l, r := [a, b] + s, [c, d] + t;
    assert l[0] == a && l[1] == b && l[2..] == s;
    assert r[0] == c && r[1] == d && r[2..] == t;
  }

  /** Re-encoding what was decoded gives the lower-cased text exactly when every character was a hex digit. */
  lemma {:induction false} HexEncodeDecode(t: seq<byte>, n: nat)
    requires |t| == 2 * n
    ensures HexEncode(HexDecode(t, n)) == Lower(t) <==> AllHexDigits(t)
    decreases n
  {
    if n > 0 {
      HexEncodeDecode(t[2..], n - 1);
      PairRoundTrip(t[0], t[1]);
      SplitPair(t);
      var d := DecodePair(t[0], t[1]);
      assert HexDecode(t, n)[1..] == HexDecode(t[2..], n - 1);
      PairsEqual(HexDigit(d / 16), HexDigit(d % 16), HexEncode(HexDecode(t[2..], n - 1)),
                 LowerDigit(t[0]), LowerDigit(t[1]), Lower(t[2..]));
    }
  }

  /** An input: "zz" decodes without complaint, and comes back as other digits. */
  lemma NotHexDecoded()
    ensures var t := ['z' as byte, 'z' as byte]; HexEncode(HexDecode(t, 1)) != Lower(t)
  {
    var t := ['z' as byte, 'z' as byte];
    HexEncodeDecode(t, 1);
    assert t[0] in t && !IsHexDigit(t[0]);
  }

  lemma {:induction false} HexEncodeAppend(s: seq<byte>, t: seq<byte>)
    ensures HexEncode(s + t) == HexEncode(s) + HexEncode(t)
  {
    if s == [] {
      assert s + t == t;
    } else {
      assert (s + t)[1..] == s[1..] + t;
      HexEncodeAppend(s[1..], t);
    }
  }

  /** `ch >> 4` and `ch & 0xf` are the two nibbles. */
  lemma NibbleBits(b: bv8)
    ensures (b >> 4) as int == b as int / 16 && (b & 0xf) as int == b as int % 16
  {
  }

  /** `(high << 4) | low` puts them together again. */
  lemma JoinNibbles(h: bv8, l: bv8)
    requires h < 16 && l < 16
    ensures ((h << 4) | l) as int == 16 * (h as int) + l as int
  {
  }

  /** `char_to_hex`: bit 6 tells letters from digits, and a letter is nine more than its low nibble. */
  function CharToHexBits(ch: bv8): bv8
  {
    var letter := ch & 0x40;
    var offset := (letter >> 3) | (letter >> 6);
    (ch + offset) & 0xf
  }

  /** The bit trick computes `CharToHex` on every character. */
  lemma CharToHexTrick(ch: bv8)
    ensures CharToHexBits(ch) as int == CharToHex(ch as byte) as int
  {
    LetterBit(ch);
    NibbleBits(ch);
    if ch & 0x40 == 0x40 {
      assert CharToHexBits(ch) == ((ch & 0xf) + 9) & 0xf;
      SmallSum(ch & 0xf, 9);
      NibbleBits((ch & 0xf) + 9);
    } else {
      assert CharToHexBits(ch) == ch & 0xf;
    }
  }

  lemma LetterBit(ch: bv8)
    ensures ch & 0x40 == if ch as int / 64 % 2 == 1 then 0x40 else 0
  {
  }

  lemma SmallSum(a: bv8, b: bv8)
    requires a < 16 && b < 16
    ensures (a + b) as int == a as int + b as int
  {
  }

  /** `hex_to_str`: writes the digits and a terminating NUL at `at`, and nothing else. */
  method HexToStr(num: seq<byte>, str: array<byte>, at: nat)
    requires at + 2 * |num| < str.Length
    modifies str
    ensures str[..] == Splice(old(str[..]), at, HexEncode(num) + [0])
  {
    ghost var was := str[..];
    for i := 0 to |num|
      invariant str[..] == Splice(was, at, HexEncode(num[..i]))
    {
      HexToStrStep(was, at, num, i);
      str[at + i * 2] := HexDigit(num[i] / 16);
      str[at + i * 2 + 1] := HexDigit(num[i] % 16);
    }
    assert num[..|num|] == num;
    SpliceSnoc(was, at, HexEncode(num), 0);
    str[at + 2 * |num|] := 0;
  }

  lemma HexToStrStep(was: seq<byte>, at: nat, num: seq<byte>, i: nat)
    requires i < |num| && at + 2 * i + 1 < |was|
    ensures Splice(was, at, HexEncode(num[..i + 1])) ==
            Splice(was, at, HexEncode(num[..i]))
              [at + i * 2 := HexDigit(num[i] / 16)][at + i * 2 + 1 := HexDigit(num[i] % 16)]
  {
    assert num[..i + 1] == num[..i] + [num[i]];
    HexEncodeAppend(num[..i], [num[i]]);
    SplicePair(was, at, HexEncode(num[..i]), HexDigit(num[i] / 16), HexDigit(num[i] % 16));
  }

  /** `str_to_hex`: fills `bytes` cells of `num` from `at` with what the first `2 * bytes` characters decode to. */
  method StrToHex(str: seq<byte>, num: array<byte>, at: nat, bytes: nat)
    requires 2 * bytes <= |str| && at + bytes <= num.Length
    modifies num
    ensures num[..] == Splice(old(num[..]), at, HexDecode(str, bytes))
  {
    ghost var was := num[..];
    for i := 0 to bytes
      invariant num[..] == Splice(was, at, HexDecode(str, i))
    {
      StrToHexStep(was, at, str, i);
      num[at + i] := DecodePair(str[i * 2], str[i * 2 + 1]);
    }
  }

  lemma StrToHexStep(was: seq<byte>, at: nat, str: seq<byte>, i: nat)
    requires 2 * i + 2 <= |str| && at + i < |was|
    ensures Splice(was, at, HexDecode(str, i + 1)) ==
            Splice(was, at, HexDecode(str, i))[at + i := DecodePair(str[i * 2], str[i * 2 + 1])]
  {
    MapPairsSnoc(str, i, DecodePair);
    SpliceSnoc(was, at, HexDecode(str, i), DecodePair(str[i * 2], str[i * 2 + 1]));
  }

  /** `was` with the bytes from `at` on overwritten by `out`. */
  function Splice(was: seq<byte>, at: nat, out: seq<byte>): (s: seq<byte>)
    requires at + |out| <= |was|
    ensures |s| == |was|
  {
    was[..at] + out + was[at + |out|..]
  }

  lemma SpliceSnoc(was: seq<byte>, at: nat, out: seq<byte>, x: byte)
    requires at + |out| < |was|
    ensures Splice(was, at, out + [x]) == Splice(was, at, out)[at + |out| := x]
  {
  }

  lemma SplicePair(was: seq<byte>, at: nat, out: seq<byte>, x: byte, y: byte)
    requires at + |out| + 1 < |was|
    ensures Splice(was, at, out + [x, y]) == Splice(was, at, out)[at + |out| := x][at + |out| + 1 := y]
  {
    assert out + [x, y] == out + [x] + [y];
    SpliceSnoc(was, at, out, x);
    SpliceSnoc(was, at, out + [x], y);
  }

  // ---------------------------------------------------------------- binary data

  /** `b ^ 0x20`: flips bit 5. */
  function FlipCase(b: byte): byte
  {
    if b / 32 % 2 == 1 then b - 32 else b + 32
  }

  lemma FlipCaseBits(b: bv8)
    ensures (b ^ 0x20) as int == FlipCase(b as byte) as int
  {
  }

  /**
   * What `unescape` leaves in the message: `after` is the byte stored at `end`, which the source
   * reads when the message finishes with an escape character.
   */
  function Unescape(s: seq<byte>, after: byte): (t: seq<byte>)
    ensures |t| <= |s|
  {
    if s == [] then []
    else if s[0] != ESCAPE then [s[0]] + Unescape(s[1..], after)
    else if |s| == 1 then [FlipCase(after)]
    else [FlipCase(s[1])] + Unescape(s[2..], after)
  }

  /** The message finishes with an escape character that is not itself escaped. */
  predicate Dangling(s: seq<byte>)
  {
    s != [] && if s[0] != ESCAPE then Dangling(s[1..]) else |s| == 1 || Dangling(s[2..])
  }

  /** The byte behind the message matters exactly when the message is left dangling. */
  lemma {:induction false} UnescapeExact(s: seq<byte>, a: byte, b: byte)
    ensures Unescape(s, a) == Unescape(s, b) <==> !Dangling(s) || a == b
    decreases |s|
  {
    if s != [] {
      if s[0] != ESCAPE {
        UnescapeExact(s[1..], a, b);
        ConsEqual(s[0], Unescape(s[1..], a), Unescape(s[1..], b));
      } else if |s| > 1 {
        UnescapeExact(s[2..], a, b);
        ConsEqual(FlipCase(s[1]), Unescape(s[2..], a), Unescape(s[2..], b));
      } else {
        SingleEqual(FlipCase(a), FlipCase(b));
      }
    }
  }

  lemma ConsEqual(x: byte, s: seq<byte>, t: seq<byte>)
    ensures [x] + s == [x] + t <==> s == t
  {
    assert ([x] + s)[1..] == s && ([x] + t)[1..] == t;
  }

  lemma SingleEqual(x: byte, y: byte)
    ensures [x] == [y] <==> x == y
  {
    assert [x][0] == x && [y][0] == y;
  }

  /** An input: one escape character alone becomes the byte behind it, with bit 5 flipped. */
  lemma DanglingRead(after: byte)
    ensures Dangling([ESCAPE]) && Unescape([ESCAPE], after) == [FlipCase(after)]
  {
  }

  /** A legal encoding never is. */
  lemma {:induction false} EncodedNotDangling(e: seq<byte>, s: seq<byte>)
    requires Encodes(e, s)
    ensures !Dangling(e)
  {
    UnescapeEncoded(e, s, 0);
    UnescapeEncoded(e, s, 1);
    UnescapeExact(e, 0, 1);
  }

  /** One byte as a client may send it: as is, or escaped; the choice is the client's where both are legal. */
  predicate EncodesByte(e: seq<byte>, b: byte)
  {
    || (e == [b] && b != HASH && b != DOLLAR && b != ESCAPE)
    || e == [ESCAPE, FlipCase(b)]
  }

  /** `e` is a legal binary encoding of `s`, whatever optional escapes the client chose. */
  ghost predicate Encodes(e: seq<byte>, s: seq<byte>)
  {
    if s == [] then e == []
    else
      || (|e| >= 1 && EncodesByte(e[..1], s[0]) && Encodes(e[1..], s[1..]))
      || (|e| >= 2 && EncodesByte(e[..2], s[0]) && Encodes(e[2..], s[1..]))
  }

  /** The encoding that escapes only the three characters it must. */
  function Escape(s: seq<byte>): (e: seq<byte>)
    ensures Encodes(e, s)
  {
    if s == [] then []
    else if s[0] == HASH || s[0] == DOLLAR || s[0] == ESCAPE then
      var e := [ESCAPE, FlipCase(s[0])] + Escape(s[1..]);
      assert e[2..] == Escape(s[1..]);
      e
    else
      var e := [s[0]] + Escape(s[1..]);
      assert e[1..] == Escape(s[1..]);
      e
  }

  /** Every legal encoding is undone, whatever byte follows the message. */
  lemma {:induction false} UnescapeEncoded(e: seq<byte>, s: seq<byte>, after: byte)
    requires Encodes(e, s)
    ensures Unescape(e, after) == s
  {
    if s != [] {
      if EncodesByte(e[..1], s[0]) && Encodes(e[1..], s[1..]) {
        assert e[0] == e[..1][0];
        UnescapeEncoded(e[1..], s[1..], after);
      } else {
        assert e[0] == e[..2][0] && e[1] == e[..2][1];
        UnescapeEncoded(e[2..], s[1..], after);
      }
    }
  }

  /** The one escape that puts a '#' on the wire is that of 0x03, and the minimal encoding never makes it. */
  lemma {:induction false} EncodedHash(e: seq<byte>, s: seq<byte>)
    requires Encodes(e, s)
    ensures HASH in e ==> INTR_CHAR in s
    ensures e == Escape(s) ==> HASH !in e
  {
    if s != [] {
      var n := if EncodesByte(e[..1], s[0]) && Encodes(e[1..], s[1..]) then 1 else 2;
      assert e == e[..n] + e[n..];
      assert forall i :: 0 <= i < n ==> e[i] == e[..n][i];
      EncodedHash(e[n..], s[1..]);
      if e == Escape(s) {
        assert e[n..] == Escape(s[1..]);
      }
    }
  }

  /**
   * `unescape`: in place between `lo` and `hi`. The write index never passes the read index, so no
   * unread byte is lost, and bytes from `hi` on are untouched. The byte at `hi` may be read.
   */
  method UnescapeInPlace(a: array<byte>, lo: nat, hi: nat) returns (count: nat)
    requires lo <= hi < a.Length
    modifies a
    ensures count == |Unescape(old(a[lo..hi]), old(a[hi]))| <= hi - lo
    ensures a[..] == Splice(old(a[..]), lo, Unescape(old(a[lo..hi]), old(a[hi])))
  {
    ghost var was, all := a[..], Unescape(a[lo..hi], a[hi]);
    UnescapeStarts(was, lo, hi);
    var w, r := lo, lo;
    while r < hi
      invariant Unescaping(was, lo, hi, w, r, all)
      invariant a[..] == Splice(was, lo, all[..w - lo])
    {
      r := UnescapeRound(a, w, r, was, lo, hi, all);
      w := w + 1;
    }
    UnescapeEnds(was, lo, hi, w, r, all);
    count := w - lo;
  }

  /** The loop body keeps the loop's invariant. */
  method UnescapeRound(a: array<byte>, w: nat, r: nat, ghost was: seq<byte>, ghost lo: nat, ghost hi: nat,
                       ghost all: seq<byte>)
    returns (next: nat)
    requires Unescaping(was, lo, hi, w, r, all) && r < hi && a[..] == Splice(was, lo, all[..w - lo])
    modifies a
    ensures next > r && Unescaping(was, lo, hi, w + 1, next, all) && a[..] == Splice(was, lo, all[..w + 1 - lo])
  {
    UnescapeStep(was, lo, hi, w, r, all);
    assert a[r] == a[..][r] && a[r + 1] == a[..][r + 1];
    next := UnescapeOneByte(a, w, r);
  }

  /** The loop body: `*w` gets the next byte, and the read index moves past it. */
  method UnescapeOneByte(a: array<byte>, w: nat, r: nat) returns (next: nat)
    requires w < a.Length && r + 1 < a.Length
    modifies a
    ensures a[..] == old(a[..])[w := Unescaped(old(a[r]), old(a[r + 1]))]
    ensures next == After(r, old(a[r]))
  {
    if a[r] == ESCAPE {
      a[w] := FlipCase(a[r + 1]);
      next := r + 2;
    } else {
      a[w] := a[r];
      next := r + 1;
    }
  }

  function Unescaped(b: byte, following: byte): byte
  {
    if b == ESCAPE then FlipCase(following) else b
  }

  function After(r: nat, b: byte): nat
  {
    if b == ESCAPE then r + 2 else r + 1
  }

  /** What is still to be produced when the read index is `r`; it may stand one past `hi`. */
  ghost function UnescapeFrom(was: seq<byte>, r: nat, hi: nat): seq<byte>
    requires hi < |was| && r <= hi + 1
  {
    if r < hi then Unescape(was[r..hi], was[hi]) else []
  }

  /** Loop invariant: the write index `w` has not passed the read index, and the rest of `all` is still to come. */
  ghost predicate Unescaping(was: seq<byte>, lo: nat, hi: nat, w: nat, r: nat, all: seq<byte>)
  {
    && lo <= w <= hi < |was| && w <= r <= hi + 1
    && w - lo <= |all| <= hi - lo && all[w - lo..] == UnescapeFrom(was, r, hi)
  }

  lemma UnescapeStarts(was: seq<byte>, lo: nat, hi: nat)
    requires lo <= hi < |was|
    ensures Unescaping(was, lo, hi, lo, lo, Unescape(was[lo..hi], was[hi]))
    ensures was == Splice(was, lo, [])
  {
  }

  lemma UnescapeEnds(was: seq<byte>, lo: nat, hi: nat, w: nat, r: nat, all: seq<byte>)
    requires Unescaping(was, lo, hi, w, r, all) && r >= hi
    ensures w - lo == |all| && all[..w - lo] == all
  {
  }

  lemma UnescapeStep(was: seq<byte>, lo: nat, hi: nat, w: nat, r: nat, all: seq<byte>)
    requires Unescaping(was, lo, hi, w, r, all) && r < hi
    ensures var s := Splice(was, lo, all[..w - lo]);
      var x := Unescaped(was[r], was[r + 1]);
      && s[r] == was[r] && s[r + 1] == was[r + 1]
      && w - lo < |all|
      && s[w := x] == Splice(was, lo, all[..w + 1 - lo])
      && Unescaping(was, lo, hi, w + 1, After(r, was[r]), all)
  {
    UnescapeOne(was, r, hi);
    assert all[w - lo..][1..] == all[w + 1 - lo..];
    assert all[..w + 1 - lo] == all[..w - lo] + [all[w - lo..][0]];
    SpliceSnoc(was, lo, all[..w - lo], all[w - lo]);
  }

  lemma UnescapeOne(was: seq<byte>, r: nat, hi: nat)
    requires r < hi < |was|
    ensures UnescapeFrom(was, r, hi) ==
      if was[r] == ESCAPE then [FlipCase(was[r + 1])] + UnescapeFrom(was, r + 2, hi)
      else [was[r]] + UnescapeFrom(was, r + 1, hi)
  {
    var s := was[r..hi];
    assert s[1..] == was[r + 1..hi];
    if r + 2 <= hi {
      assert s[2..] == was[r + 2..hi];
    }
  }

  // ---------------------------------------------------------------- checksum

  function Total(s: seq<byte>): nat
  {
    if s == [] then 0 else s[0] as int + Total(s[1..])
  }

  function Checksum(s: seq<byte>): byte
  {
    (Total(s) % 256) as byte
  }

  lemma {:induction false} TotalAppend(s: seq<byte>, t: seq<byte>)
    ensures Total(s + t) == Total(s) + Total(t)
  {
    if s == [] {
      assert s + t == t;
    } else {
      assert (s + t)[1..] == s[1..] + t;
      TotalAppend(s[1..], t);
    }
  }

  lemma ChecksumNothing()
    ensures Checksum([]) == 0
  {
  }

  lemma ChecksumByte(b: byte)
    ensures Checksum([b]) == b
  {
    assert [b][1..] == [];
    assert Total([b]) == b as int + Total([]);
  }

  /**
   * What a checksum is, without its sum: nothing has 0, a byte has itself, and the checksums of two
   * parts add up modulo 256. No other function does this.
   */
  lemma ChecksumLaws(s: seq<byte>, t: seq<byte>, b: byte)
    ensures Checksum([]) == 0 && Checksum([b]) == b
    ensures Checksum(s + t) as int == (Checksum(s) as int + Checksum(t) as int) % 256
  {
    ChecksumNothing();
    ChecksumByte(b);
    TotalAppend(s, t);
  }

  lemma {:induction false} ChecksumUnique(f: seq<byte> -> byte, s: seq<byte>)
    requires f([]) == 0 && forall b: byte :: f([b]) == b
    requires forall x: seq<byte>, y: seq<byte> :: f(x + y) as int == (f(x) as int + f(y) as int) % 256
    ensures f(s) == Checksum(s)
  {
    if s == [] {
      ChecksumNothing();
    } else {
      ChecksumUnique(f, s[1..]);
      ChecksumLaws([s[0]], s[1..], s[0]);
      assert [s[0]] + s[1..] == s;
    }
  }

  /** Replacing the byte at `i` keeps the checksum exactly when the byte is unchanged. */
  lemma ChecksumUpdate(s: seq<byte>, i: nat, b: byte)
    requires i < |s|
    ensures Checksum(s[i := b]) == Checksum(s) <==> b == s[i]
  {
    var l, r := s[..i], s[i + 1..];
    assert s == l + ([s[i]] + r) && s[i := b] == l + ([b] + r);
    TotalAppend(l, [s[i]] + r);
    TotalAppend(l, [b] + r);
    assert ([s[i]] + r)[1..] == r && ([b] + r)[1..] == r;
    assert Total(s[i := b]) - Total(s) == b as int - s[i] as int;
  }

  /** `compute_checksum`: `csum += buf[i]` wraps in a `uint8_t`. */
  method ComputeChecksum(buf: seq<byte>) returns (csum: byte)
    ensures csum == Checksum(buf)
  {
    csum := 0;
    for i := 0 to |buf|
      invariant csum == Checksum(buf[..i])
    {
      ChecksumStep(buf, i);
      csum := ((csum as int + buf[i] as int) % 256) as byte;
    }
    assert buf[..|buf|] == buf;
  }

  lemma ChecksumStep(buf: seq<byte>, i: nat)
    requires i < |buf|
    ensures Checksum(buf[..i + 1]) as int == (Checksum(buf[..i]) as int + buf[i] as int) % 256
  {
    assert buf[..i + 1] == buf[..i] + [buf[i]];
    TotalAppend(buf[..i], [buf[i]]);
  }
}
